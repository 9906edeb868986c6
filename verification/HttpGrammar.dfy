/** Responses as a grammar: the parser accepts exactly the heads and responses it describes, and
    reads exactly what they say. */
module HttpGrammar {
  import opened Bytes
  import opened Options
  import opened HttpText
  import opened HttpHead
  import opened HttpResponse
  import opened ChunkedGrammar
  import Chunked

  /** A status line and field lines, as text. */
  datatype Message = Message(status: seq<byte>, lines: seq<seq<byte>>)

  function HeadText(m: Message): seq<byte> {
    m.status + CRLF + RenderTrailer(m.lines)
  }

  /** What the field lines say, one after the other. */
  function Said(lines: seq<seq<byte>>, f: Fields): Result<Fields> {
    if lines == [] then Ok(f)
    else
      match AddField(f, lines[0])
      case Err(e) => Err(e)
      case Ok(g) => Said(lines[1..], g)
  }

  predicate Means(m: Message, code: nat, f: Fields) {
    Status(m.status) == Ok(code) && Said(m.lines, NO_FIELDS) == Ok(f) && CheckFields(code, f) == None
  }

  // --------------------------------------------------------------------------------------
  // Lines

  lemma StatusIsPrintable(line: seq<byte>)
    requires Status(line).Ok?
    ensures AllPrintable(line)
  {
    assert Text("HTTP/1.") == [72, 84, 84, 80, 47, 49, 46];
    forall i | 0 <= i < |line| ensures Printable(line[i]) {
      if i < 7 { assert line[i] == line[..7][i]; }
      else if 9 <= i < 12 { assert line[i] == line[9..12][i - 9]; }
      else if i >= 13 { assert line[i] == line[13..][i - 13]; }
    }
  }

  lemma LineIsPlain(f: Fields, line: seq<byte>)
    requires AddField(f, line).Ok?
    ensures AllPrintable(line) && BreakFree(line) && line != []
  {
    hide TokenByte, Trimmed, ContentLength, TransferCodings;
    HeaderLineIsPrintable(line);
    Chunked.PrintableIsBreakFree(line);
  }

  /** Two line ends taken off both sides of an equation. */
  lemma OneLine(rest: seq<byte>, line: seq<byte>)
    requires rest + CRLF + CRLF == line + CRLF + CRLF
    ensures rest == line
  {
    var x, y := rest + CRLF + CRLF, line + CRLF + CRLF;
    assert |rest| == |line| && x[..|rest|] == rest && y[..|line|] == line;
  }

  lemma MoreLines(rest: seq<byte>, line: seq<byte>, tail: seq<byte>)
    requires |tail| >= 4 && rest + CRLF + CRLF == line + CRLF + tail
    ensures rest == line + CRLF + tail[..|tail| - 4] && tail[..|tail| - 4] + CRLF + CRLF == tail
  {
    var x, n := rest + CRLF + CRLF, |line| + 2 + |tail|;
    assert |rest| == n - 4;
    assert x[..n - 4] == rest && x[n - 4..] == CRLF + CRLF;
    var y := line + CRLF + tail;
    assert y[..n - 4] == line + CRLF + tail[..|tail| - 4] && y[n - 4..] == tail[|tail| - 4..];
    assert tail == tail[..|tail| - 4] + tail[|tail| - 4..];
  }

  /** The field block without the two line ends that follow it. */
  lemma {:induction false} BlockSays(block: seq<byte>, cursor: nat, lines: seq<seq<byte>>, f: Fields)
    requires cursor <= |block| && lines != [] && block[cursor..] + CRLF + CRLF == RenderTrailer(lines)
    requires Said(lines, f).Ok?
    ensures FieldsFrom(block, cursor, f) == Said(lines, f)
    decreases |lines|
  {
    hide AddField, CrlfAt;
    var line, rest := lines[0], block[cursor..];
    LineIsPlain(f, line);
    if lines[1..] == [] {
      OneLine(rest, line);
      assert block[cursor..|block|] == rest;
      NoBreak(rest);
    } else {
      TrailerIsLong(lines[1..]);
      var tail := RenderTrailer(lines[1..]);
      MoreLines(rest, line, tail);
      FieldStep(block, cursor, line, tail[..|tail| - 4], f);
      BlockSays(block, cursor + |line| + 2, lines[1..], AddField(f, line).value);
    }
  }

  /** One line of a block that goes on. */
  lemma FieldStep(block: seq<byte>, cursor: nat, line: seq<byte>, more: seq<byte>, f: Fields)
    requires cursor <= |block| && block[cursor..] == line + CRLF + more && BreakFree(line) && line != []
    requires AddField(f, line).Ok?
    ensures cursor + |line| + 2 <= |block| && block[cursor + |line| + 2..] == more
    ensures FieldsFrom(block, cursor, f) == FieldsFrom(block, cursor + |line| + 2, AddField(f, line).value)
  {
    hide AddField, CrlfAt;
    LineFound(line, more);
    var rest := block[cursor..];
    Slice(block, cursor, |block|, 0, |line|);
    Slice(block, cursor, |block|, |line| + 2, |rest|);
    assert rest[0..|line|] == line && rest[|line| + 2..|rest|] == more;
    var next := cursor + |line| + 2;
    assert block[next..|block|] == block[next..] && block[cursor..|block|] == rest;
  }

  lemma Slice(s: seq<byte>, a: nat, b: nat, i: nat, j: nat)
    requires a <= b <= |s| && i <= j <= b - a
    ensures s[a..b][i..j] == s[a + i..a + j]
  {
    var x, y := s[a..b][i..j], s[a + i..a + j];
    forall k | 0 <= k < j - i ensures x[k] == y[k] {
    }
  }

  lemma NoBreak(s: seq<byte>)
    requires BreakFree(s)
    ensures CrlfAt(s).None?
  {
    hide CrlfAt;
  }

  lemma TrailerIsLong(lines: seq<seq<byte>>)
    requires lines != []
    ensures |RenderTrailer(lines)| >= 4
  {
    assert |RenderTrailer(lines[1..])| >= 2;
  }

  /** The lines of an accepted field block. */
  lemma {:induction false} BlockReads(block: seq<byte>, cursor: nat, f: Fields) returns (lines: seq<seq<byte>>)
    requires cursor < |block| && FieldsFrom(block, cursor, f).Ok?
    requires |block| < 2 || !BreakAt(block, |block| - 2)
    ensures lines != [] && block[cursor..] + CRLF + CRLF == RenderTrailer(lines)
    ensures Said(lines, f) == FieldsFrom(block, cursor, f)
    decreases |block| - cursor
  {
    hide AddField, CrlfAt;
    var found := CrlfAt(block[cursor..]);
    if found.None? {
      var line := block[cursor..];
      assert block[cursor..|block|] == line;
      lines := [line];
      assert lines[1..] == [];
      assert RenderTrailer(lines) == line + CRLF + CRLF;
    } else {
      var n := found.value;
      assert BreakAt(block[cursor..], n);
      var line := block[cursor..cursor + n];
      var g := AddField(f, line).value;
      assert BreakAt(block, cursor + n);
      var more := BlockReads(block, cursor + n + 2, g);
      lines := [line] + more;
      assert lines[1..] == more;
      assert block[cursor..] == line + CRLF + block[cursor + n + 2..];
    }
  }

  // --------------------------------------------------------------------------------------
  // The empty line

  lemma SkipTo(t: seq<byte>, i: nat, j: nat)
    requires i <= j <= |t| && forall k: nat :: i <= k < j ==> !SeparatorAt(t, k)
    ensures FirstSeparator(t, i) == FirstSeparator(t, j)
  {
    hide FirstSeparator;
  }

  lemma NoSeparatorIn(t: seq<byte>, at: nat, line: seq<byte>)
    requires at + 2 + |line| <= |t| && t[at..at + 2 + |line|] == CRLF + line && AllPrintable(line) && line != []
    ensures forall k: nat :: at <= k < at + 2 + |line| ==> !SeparatorAt(t, k)
  {
    var piece := t[at..at + 2 + |line|];
    forall k: nat | at <= k < at + 2 + |line| ensures !SeparatorAt(t, k) {
      assert t[k] == piece[k - at];
      if k >= at + 2 { assert Printable(line[k - at - 2]); }
      else { assert t[at + 2] == piece[2] == line[0] && Printable(line[0]); }
    }
  }

  lemma {:induction false} SeparatorAfter(t: seq<byte>, at: nat, lines: seq<seq<byte>>, f: Fields)
    requires at + 2 + |RenderTrailer(lines)| <= |t|
    requires t[at..at + 2 + |RenderTrailer(lines)|] == CRLF + RenderTrailer(lines)
    requires Said(lines, f).Ok?
    ensures FirstSeparator(t, at) == Some(at + |RenderTrailer(lines)| - 2)
    decreases |lines|
  {
    hide AddField, FirstSeparator, SeparatorAt;
    var piece := t[at..at + 2 + |RenderTrailer(lines)|];
    if lines == [] {
      assert piece == CRLF + CRLF;
      TwoLineEnds(t, at);
    } else {
      var line, tail := lines[0], RenderTrailer(lines[1..]);
      LineIsPlain(f, line);
      var next := at + 2 + |line|;
      assert t[at..next] == piece[..2 + |line|] == CRLF + line;
      NoSeparatorIn(t, at, line);
      SkipTo(t, at, next);
      assert t[next..next + 2 + |tail|] == piece[2 + |line|..] == CRLF + tail;
      SeparatorAfter(t, next, lines[1..], AddField(f, line).value);
    }
  }

  lemma TwoLineEnds(t: seq<byte>, at: nat)
    requires at + 4 <= |t|
    ensures t[at..at + 4] == CRLF + CRLF <==> SeparatorAt(t, at)
    ensures SeparatorAt(t, at) ==> FirstSeparator(t, at) == Some(at)
  {
    var piece := t[at..at + 4];
    assert piece == [t[at], t[at + 1], t[at + 2], t[at + 3]];
    assert CRLF + CRLF == [CR, LF, CR, LF];
  }

  // --------------------------------------------------------------------------------------
  // Heads

  /** The text of a head lies at `start`, within the header limit. */
  predicate TextAt(s: seq<byte>, start: nat, m: Message) {
    start + |HeadText(m)| <= HeaderLimit(s) && s[start..start + |HeadText(m)|] == HeadText(m)
  }

  lemma TextStatus(s: seq<byte>, start: nat, m: Message)
    requires TextAt(s, start, m) && Status(m.status).Ok?
    ensures start < HeaderLimit(s) && CrlfAt(s[start..HeaderLimit(s)]) == Some(|m.status|)
    ensures s[start..start + |m.status|] == m.status
  {
    hide CrlfAt, Status;
    StatusIsPrintable(m.status);
    Chunked.PrintableIsBreakFree(m.status);
    var n, limit := |HeadText(m)|, HeaderLimit(s);
    var text := s[start..start + n];
    assert text == m.status + CRLF + RenderTrailer(m.lines);
    assert s[start..limit] == text + s[start + n..limit];
    LineFound(m.status, RenderTrailer(m.lines) + s[start + n..limit]);
    assert s[start..limit] == m.status + CRLF + (RenderTrailer(m.lines) + s[start + n..limit]);
    assert s[start..start + |m.status|] == text[..|m.status|];
  }

  /** A line and what follows it, found in a longer text. */
  lemma PartsAt(s: seq<byte>, start: nat, a: seq<byte>, b: seq<byte>)
    requires start + |a| + 2 + |b| <= |s| && s[start..start + |a| + 2 + |b|] == a + CRLF + b
    ensures s[start + |a|..start + |a| + 2 + |b|] == CRLF + b && s[start + |a| + 2..start + |a| + 2 + |b|] == b
  {
    var n := |a| + 2 + |b|;
    var text := a + CRLF + b;
    Slice(s, start, start + n, |a|, n);
    Slice(s, start, start + n, |a| + 2, n);
    assert text[|a|..n] == CRLF + b && text[|a| + 2..n] == b;
  }

  lemma TextBlock(s: seq<byte>, start: nat, m: Message, f: Fields)
    requires TextAt(s, start, m) && Said(m.lines, NO_FIELDS) == Ok(f)
    ensures var end := start + |m.status|;
            var sep := start + |HeadText(m)| - 4;
            && FirstSeparator(s[..HeaderLimit(s)], end) == Some(sep) && end <= sep && sep + 4 <= |s|
            && FieldsFrom(FieldBlock(s, end, sep), 0, NO_FIELDS) == Ok(f)
  {
    hide Said, FirstSeparator, RenderTrailer, FieldsFrom, FieldBlock;
    var limit, end, tail := HeaderLimit(s), start + |m.status|, RenderTrailer(m.lines);
    PartsAt(s, start, m.status, tail);
    Slice(s, 0, limit, end, end + 2 + |tail|);
    assert s[0..limit] == s[..limit];
    SeparatorAfter(s[..limit], end, m.lines, NO_FIELDS);
    BlockOfLines(s, end, m.lines);
  }

  lemma CutEnd(tail: seq<byte>)
    requires |tail| >= 4 && tail[|tail| - 4..] == CRLF + CRLF
    ensures tail[..|tail| - 4] + CRLF + CRLF == tail
  {
  }

  lemma BlockOfLines(s: seq<byte>, end: nat, lines: seq<seq<byte>>)
    requires Said(lines, NO_FIELDS).Ok?
    requires var tail := RenderTrailer(lines); end + 2 + |tail| <= |s| && s[end + 2..end + 2 + |tail|] == tail
    ensures var sep := end + |RenderTrailer(lines)| - 2;
            end <= sep && FieldsFrom(FieldBlock(s, end, sep), 0, NO_FIELDS) == Said(lines, NO_FIELDS)
  {
    hide FieldsFrom, AddField;
    if lines == [] {
      EmptyBlock();
    } else {
      BlockOfSome(s, end, lines);
    }
  }

  lemma BlockOfSome(s: seq<byte>, end: nat, lines: seq<seq<byte>>)
    requires lines != [] && Said(lines, NO_FIELDS).Ok?
    requires var tail := RenderTrailer(lines); end + 2 + |tail| <= |s| && s[end + 2..end + 2 + |tail|] == tail
    ensures var sep := end + |RenderTrailer(lines)| - 2;
            end + 2 <= sep && FieldsFrom(FieldBlock(s, end, sep), 0, NO_FIELDS) == Said(lines, NO_FIELDS)
  {
    hide Said, RenderTrailer, FieldsFrom;
    LinesEnd(lines);
    var tail := RenderTrailer(lines);
    var n := |tail|;
    var block := s[end + 2..end + n - 2];
    Slice(s, end + 2, end + 2 + n, 0, n - 4);
    CutEnd(tail);
    assert block[0..] == block == tail[0..n - 4] == tail[..n - 4];
    BlockSays(block, 0, lines, NO_FIELDS);
  }

  lemma {:induction false} LinesEnd(lines: seq<seq<byte>>)
    requires lines != []
    ensures var tail := RenderTrailer(lines); |tail| >= 4 && tail[|tail| - 4..] == CRLF + CRLF
  {
    var tail := RenderTrailer(lines[1..]);
    if lines[1..] == [] {
      assert RenderTrailer(lines) == lines[0] + (CRLF + CRLF);
    } else {
      LinesEnd(lines[1..]);
      assert RenderTrailer(lines)[|RenderTrailer(lines)| - 4..] == tail[|tail| - 4..];
    }
  }

  /** Every head of the grammar within the limit is accepted and read as it is meant. */
  lemma TextReads(s: seq<byte>, start: nat, m: Message, code: nat, f: Fields)
    requires TextAt(s, start, m) && Means(m, code, f)
    ensures start <= |s| && HeadAt(s, start) == Ok(Head(code, f, start + |HeadText(m)|))
  {
    hide CrlfAt, Status, FirstSeparator, Said, FieldsFrom, CheckFields, FieldBlock, RenderTrailer;
    TextStatus(s, start, m);
    TextBlock(s, start, m, f);
  }

  /** Every accepted head is the text of one. */
  lemma HeadHasText(s: seq<byte>, start: nat) returns (m: Message)
    requires start <= |s| && HeadAt(s, start).Ok?
    ensures var h := HeadAt(s, start).value;
            TextAt(s, start, m) && Means(m, h.code, h.fields) && h.bodyStart == start + |HeadText(m)|
  {
    hide Status, CheckFields, FieldsFrom, CrlfAt, FirstSeparator, AddField, FieldBlock, RenderTrailer;
    var limit := HeaderLimit(s);
    var n := CrlfAt(s[start..limit]).value;
    assert BreakAt(s[start..limit], n);
    var end := start + n;
    var t := s[..limit];
    var sep := FirstSeparator(t, end).value;
    assert SeparatorAt(t, sep);
    assert t[end] == s[end] == CR && t[end + 1] == s[end + 1] == LF;
    var lines := BlockLines(s, t, end, sep);
    m := Message(s[start..end], lines);
    assert s[start..sep + 4] == s[start..end] + CRLF + s[end + 2..sep + 4];
  }

  lemma BlockLines(s: seq<byte>, t: seq<byte>, end: nat, sep: nat) returns (lines: seq<seq<byte>>)
    requires |t| <= |s| && t == s[..|t|] && end <= sep && sep + 4 <= |t| && BreakAt(t, end)
    requires FirstSeparator(t, end) == Some(sep)
    requires FieldsFrom(FieldBlock(s, end, sep), 0, NO_FIELDS).Ok?
    ensures Said(lines, NO_FIELDS) == FieldsFrom(FieldBlock(s, end, sep), 0, NO_FIELDS)
    ensures s[end + 2..sep + 4] == RenderTrailer(lines)
  {
    hide AddField, FirstSeparator, SeparatorAt, FieldsFrom;
    TwoLineEnds(t, sep);
    assert s[sep..sep + 4] == t[sep..sep + 4] == CRLF + CRLF;
    if sep == end {
      lines := [];
      assert s[end + 2..sep + 4] == s[sep..sep + 4][2..] == CRLF;
      EmptyBlock();
    } else {
      NotRightAfter(t, end, sep);
      var block := s[end + 2..sep];
      NoFinalBreak(s, t, end, sep);
      lines := BlockReads(block, 0, NO_FIELDS);
      assert block[0..] == block;
      assert s[end + 2..sep + 4] == block + s[sep..sep + 4];
      assert block + (CRLF + CRLF) == block + CRLF + CRLF;
    }
  }

  lemma EmptyBlock()
    ensures FieldsFrom([], 0, NO_FIELDS) == Ok(NO_FIELDS)
  {
  }

  lemma NoFinalBreak(s: seq<byte>, t: seq<byte>, end: nat, sep: nat)
    requires |t| <= |s| && t == s[..|t|] && end + 3 <= sep && sep + 4 <= |t|
    requires FirstSeparator(t, end) == Some(sep)
    ensures var block := s[end + 2..sep]; |block| < 2 || !BreakAt(block, |block| - 2)
  {
    hide FirstSeparator;
    var block := s[end + 2..sep];
    assert SeparatorAt(t, sep);
    assert |block| >= 2 && BreakAt(block, |block| - 2) ==> SeparatorAt(t, sep - 2);
  }

  lemma NotRightAfter(t: seq<byte>, end: nat, sep: nat)
    requires end < sep && BreakAt(t, end) && FirstSeparator(t, end) == Some(sep)
    ensures sep >= end + 3
  {
    hide FirstSeparator;
    assert SeparatorAt(t, sep) && !SeparatorAt(t, end);
  }

  /** A head is accepted exactly when it is the text of one, and means what was read. */
  lemma HeadIff(s: seq<byte>, start: nat, h: Head)
    requires start <= |s|
    ensures HeadAt(s, start) == Ok(h)
       <==> exists m :: TextAt(s, start, m) && Means(m, h.code, h.fields) && h.bodyStart == start + |HeadText(m)|
  {
    hide HeadAt, TextAt, Means, HeadText;
    if HeadAt(s, start) == Ok(h) {
      var m := HeadHasText(s, start);
    }
    if m :| TextAt(s, start, m) && Means(m, h.code, h.fields) && h.bodyStart == start + |HeadText(m)| {
      TextReads(s, start, m, h.code, h.fields);
    }
  }

  // --------------------------------------------------------------------------------------
  // Informational heads before the final one

  /** An informational head that may come first: no framing and no change of protocol. */
  predicate Interim(m: Message) {
    && Status(m.status).Ok? && Said(m.lines, NO_FIELDS).Ok?
    && var code, f := Status(m.status).value, Said(m.lines, NO_FIELDS).value;
       CheckFields(code, f) == None && code < 200 && code != 101 && f.length.None? && !f.encoded
  }

  predicate AllInterim(ms: seq<Message>) {
    forall i :: 0 <= i < |ms| ==> Interim(ms[i])
  }

  function HeadsText(ms: seq<Message>, last: Message): seq<byte> {
    if ms == [] then HeadText(last) else HeadText(ms[0]) + HeadsText(ms[1..], last)
  }

  lemma {:induction false} HeadsAreLong(ms: seq<Message>, last: Message)
    ensures |HeadsText(ms, last)| >= 4
    decreases |ms|
  {
    if ms == [] { assert |RenderTrailer(last.lines)| >= 2; } else { HeadsAreLong(ms[1..], last); }
  }

  /** The heads lie at `start`, within the header limit. */
  predicate HeadsAt(s: seq<byte>, start: nat, ms: seq<Message>, last: Message) {
    var n := |HeadsText(ms, last)|;
    start + n <= HeaderLimit(s) && s[start..start + n] == HeadsText(ms, last)
  }

  lemma FirstOfHeads(s: seq<byte>, start: nat, ms: seq<Message>, last: Message)
    requires ms != [] && HeadsAt(s, start, ms, last)
    ensures TextAt(s, start, ms[0]) && HeadsAt(s, start + |HeadText(ms[0])|, ms[1..], last)
    ensures start + |HeadText(ms[0])| < |s|
  {
    hide HeadText;
    HeadsAreLong(ms[1..], last);
    var a, b := HeadText(ms[0]), HeadsText(ms[1..], last);
    var text := s[start..start + |a| + |b|];
    assert text == a + b;
    assert s[start..start + |a|] == text[..|a|] == a;
    assert s[start + |a|..start + |a| + |b|] == text[|a|..] == b;
  }

  lemma {:induction false} HeadsRead(s: seq<byte>, start: nat, count: nat, ms: seq<Message>, last: Message, code: nat, f: Fields)
    requires HeadsAt(s, start, ms, last) && AllInterim(ms) && |ms| + count <= MAX_INFORMATIONAL
    requires Means(last, code, f) && code >= 200
    ensures start <= |s| && FinalHead(s, start, count) == Ok(Head(code, f, start + |HeadsText(ms, last)|))
    decreases |ms|
  {
    hide HeadAt, Means, HeadText, CheckFields, Status, Said;
    if ms == [] {
      TextReads(s, start, last, code, f);
    } else {
      var m := ms[0];
      assert Interim(m);
      FirstOfHeads(s, start, ms, last);
      InterimMeans(m);
      TextReads(s, start, m, Status(m.status).value, Said(m.lines, NO_FIELDS).value);
      HeadsRead(s, start + |HeadText(m)|, count + 1, ms[1..], last, code, f);
    }
  }

  lemma InterimMeans(m: Message)
    requires Interim(m)
    ensures Means(m, Status(m.status).value, Said(m.lines, NO_FIELDS).value)
  {
    hide Status, Said, CheckFields;
  }

  lemma {:induction false} FinalHasText(s: seq<byte>, start: nat, count: nat) returns (ms: seq<Message>, last: Message)
    requires start <= |s| && FinalHead(s, start, count).Ok? && count <= MAX_INFORMATIONAL
    ensures var h := FinalHead(s, start, count).value;
            && HeadsAt(s, start, ms, last) && AllInterim(ms) && |ms| + count <= MAX_INFORMATIONAL
            && Means(last, h.code, h.fields) && h.code >= 200 && h.bodyStart == start + |HeadsText(ms, last)|
    decreases |s| - start
  {
    hide HeadAt, HeadText, CheckFields, Status, Said;
    var m := HeadHasText(s, start);
    var h := HeadAt(s, start).value;
    if h.code >= 200 {
      ms, last := [], m;
    } else {
      var more: seq<Message>;
      more, last := FinalHasText(s, h.bodyStart, count + 1);
      ms := [m] + more;
      assert ms[1..] == more;
      var a, b := HeadText(m), HeadsText(more, last);
      assert s[start..start + |a| + |b|] == s[start..start + |a|] + s[start + |a|..start + |a| + |b|];
    }
  }

  // --------------------------------------------------------------------------------------
  // Whole responses

  /** A response as text: at most eight informational heads, the final head, and a body that the
      final head frames. */
  predicate Reads(s: seq<byte>, ms: seq<Message>, last: Message, r: Response) {
    && HeadsAt(s, 0, ms, last) && AllInterim(ms) && |ms| <= MAX_INFORMATIONAL
    && Means(last, r.head.code, r.head.fields) && r.head.code >= 200
    && r.head.bodyStart == |HeadsText(ms, last)| && BodyOf(r.head, s[r.head.bodyStart..]) == Ok(r.body)
  }

  /** The parser accepts exactly the responses of the grammar, and reads exactly what they say. */
  lemma ResponseIff(s: seq<byte>, r: Response)
    ensures Parse(s) == Ok(r) <==> exists ms, last :: Reads(s, ms, last, r)
  {
    hide FinalHead, HeadsAt, HeadsText, AllInterim, Means, BodyOf;
    if Parse(s) == Ok(r) {
      var ms, last := FinalHasText(s, 0, 0);
      assert Reads(s, ms, last, r);
    }
    if ms, last :| Reads(s, ms, last, r) {
      HeadsAreLong(ms, last);
      HeadsRead(s, 0, 0, ms, last, r.head.code, r.head.fields);
      NotEmpty(s, ms, last);
    }
  }

  lemma NotEmpty(s: seq<byte>, ms: seq<Message>, last: Message)
    requires HeadsAt(s, 0, ms, last)
    ensures s != []
  {
    HeadsAreLong(ms, last);
  }

  // --------------------------------------------------------------------------------------
  // Writing and reading back

  /** A value without blanks around it. */
  predicate Tight(v: seq<byte>) {
    AllPrintable(v) && (v != [] ==> !Blank(v[0]) && !Blank(v[|v| - 1]))
  }

  function FieldLine(name: seq<byte>, value: seq<byte>): seq<byte> {
    name + [58, SPACE] + value
  }

  lemma {:induction false} TokenEndIs(s: seq<byte>, i: nat, n: nat)
    requires i <= n < |s| && (forall k :: i <= k < n ==> TokenByte(s[k])) && !TokenByte(s[n])
    ensures TokenEnd(s, i) == n
    decreases n - i
  {
    hide TokenByte;
    if i < n { TokenEndIs(s, i + 1, n); }
  }

  lemma TrimmedValue(v: seq<byte>)
    requires Tight(v)
    ensures Trimmed([SPACE] + v) == v
  {
    var s := [SPACE] + v;
    assert s[0] == SPACE;
    if v == [] {
      assert BlankEnd(s, 1) == 1;
      assert s[1..] == [];
    } else {
      assert s[1] == v[0] && s[|s| - 1] == v[|v| - 1];
      assert BlankEnd(s, 1) == 1;
      assert BlankEnd(s, 0) == 1;
      assert BlankStart(s, 1, |s|) == |s|;
      assert s[1..|s|] == v;
    }
  }

  /** A field line is read back as its name and its value. */
  lemma FieldRoundTrip(name: seq<byte>, value: seq<byte>)
    requires name != [] && (forall i :: 0 <= i < |name| ==> TokenByte(name[i])) && Tight(value)
    ensures HeaderView(FieldLine(name, value)) == Some(Header(name, value))
  {
    hide TokenByte, Trimmed;
    var line := FieldLine(name, value);
    assert line[|name|] == 58;
    ColonEndsToken();
    TokenEndIs(line, 0, |name|);
    assert line[..|name|] == name;
    assert line[|name| + 1..] == [SPACE] + value;
    TrimmedValue(value);
  }

  lemma ColonEndsToken()
    ensures !TokenByte(58)
  {
  }

  function DecimalText(n: nat): (s: seq<byte>)
    ensures s != [] && AllDigits(s)
  {
    if n < 10 then [48 + n] else DecimalText(n / 10) + [48 + n % 10]
  }

  lemma {:induction false} DecimalRoundTrip(n: nat)
    ensures Decimal(DecimalText(n)) == n
  {
    var s := DecimalText(n);
    if n >= 10 {
      DecimalRoundTrip(n / 10);
      assert s[..|s| - 1] == DecimalText(n / 10);
    } else {
      assert s[..0] == [];
    }
  }

  function Pow10(k: nat): nat {
    if k == 0 then 1 else 10 * Pow10(k - 1)
  }

  lemma {:induction false} DecimalLength(n: nat, k: nat)
    requires n < Pow10(k) && k > 0
    ensures |DecimalText(n)| <= k
  {
    if n >= 10 && k > 1 {
      DecimalLength(n / 10, k - 1);
    }
  }

  /** "HTTP/1.1 200 OK" with the length of the body. */
  function PlainHead(n: nat): Message {
    Message(Text("HTTP/1.1 200 OK"), [FieldLine(Text("content-length"), DecimalText(n))])
  }

  lemma PlainStatus()
    ensures Status(Text("HTTP/1.1 200 OK")) == Ok(200)
  {
    var line := Text("HTTP/1.1 200 OK");
    assert line[0] == 72 && line[1] == 84 && line[2] == 84 && line[3] == 80 && line[4] == 47;
    assert line[5] == 49 && line[6] == 46 && line[7] == 49 && line[8] == 32 && line[9] == 50;
    assert line[10] == 48 && line[11] == 48 && line[12] == 32 && line[13] == 79 && line[14] == 75;
    assert line == [72, 84, 84, 80, 47, 49, 46, 49, 32, 50, 48, 48, 32, 79, 75];
    assert Text("HTTP/1.") == [72, 84, 84, 80, 47, 49, 46] == line[..7];
    assert line[9..12] == [50, 48, 48] && line[13..] == [79, 75];
    DecimalOfThree(50, 48, 48);
  }

  lemma LengthName()
    ensures var name := Text("content-length");
            name != [] && (forall i :: 0 <= i < |name| ==> TokenByte(name[i])) && SameIgnoringCase(name, name)
  {
    hide TokenByte;
    var name := Text("content-length");
    assert name == [99, 111, 110, 116, 101, 110, 116, 45, 108, 101, 110, 103, 116, 104];
    forall i | 0 <= i < |name| ensures TokenByte(name[i]) {
      LetterIsToken(name[i]);
    }
  }

  lemma LetterIsToken(c: byte)
    ensures 97 <= c <= 122 || c == 45 ==> TokenByte(c)
  {
  }

  lemma LengthFits(n: nat)
    requires n <= SIZE_MAX
    ensures |DecimalText(n)| <= 20
  {
    assert Pow10(5) == 100000;
    assert Pow10(10) == 100000 * Pow10(5);
    assert Pow10(15) == 100000 * Pow10(10);
    assert Pow10(20) == 100000 * Pow10(15);
    DecimalLength(n, 20);
  }

  lemma LengthField(n: nat)
    requires n <= SIZE_MAX
    ensures AddField(NO_FIELDS, FieldLine(Text("content-length"), DecimalText(n))) == Ok(NO_FIELDS.(length := Some(n)))
  {
    hide Text, HeaderView, SameIgnoringCase, TransferCodings, Decimal;
    LengthName();
    DecimalRoundTrip(n);
    DigitsAreTight(DecimalText(n));
    FieldRoundTrip(Text("content-length"), DecimalText(n));
  }

  lemma DigitsAreTight(s: seq<byte>)
    requires s != [] && AllDigits(s)
    ensures Tight(s)
  {
  }

  lemma OneLineSays(line: seq<byte>, f: Fields)
    requires AddField(NO_FIELDS, line) == Ok(f)
    ensures Said([line], NO_FIELDS) == Ok(f)
  {
    hide AddField;
    var lines := [line];
    assert lines[1..] == [];
    assert Said(lines[1..], f) == Ok(f);
  }

  lemma PlainMeans(n: nat)
    requires n <= SIZE_MAX
    ensures Means(PlainHead(n), 200, NO_FIELDS.(length := Some(n)))
  {
    hide Text, Status, AddField, Said, DecimalText;
    PlainStatus();
    LengthField(n);
    OneLineSays(FieldLine(Text("content-length"), DecimalText(n)), NO_FIELDS.(length := Some(n)));
  }

  /** Every body that is sent with its length arrives as it is. */
  lemma PlainResponse(body: seq<byte>)
    requires |body| <= SIZE_MAX
    ensures var head := HeadText(PlainHead(|body|));
            Parse(head + body) == Ok(Response(Head(200, NO_FIELDS.(length := Some(|body|)), |head|), body))
  {
    hide Means, FinalHead, Text, DecimalText;
    var m := PlainHead(|body|);
    var s := HeadText(m) + body;
    LengthFits(|body|);
    PlainMeans(|body|);
    assert m.lines[1..] == [];
    assert |RenderTrailer(m.lines)| == |m.lines[0]| + 4;
    assert s[0..|HeadText(m)|] == HeadText(m) && s[|HeadText(m)|..] == body;
    HeadsRead(s, 0, 0, [], m, 200, NO_FIELDS.(length := Some(|body|)));
  }
}
