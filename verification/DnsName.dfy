/** kernel/net.c: domain names as text and on the wire (sections 3.1 and 4.1.4 of RFC 1035). */
module DnsName {
  import opened Bytes
  import opened Options
  import opened Buffers

  const NAME_MAX: nat := 253
  const LABEL_MAX: nat := 63
  const DOT: byte := 46
  const HEADER_SIZE: nat := 12
  const QUERY_CAPACITY: nat := HEADER_SIZE + NAME_MAX + 6
  const MAX_HOPS: nat := 128

  // --------------------------------------------------------------------------------------
  // Names as text

  predicate NameByte(c: byte) {
    0x20 < c < 0x7F
  }

  predicate LabelOk(l: seq<byte>) {
    0 < |l| <= LABEL_MAX && forall i :: 0 <= i < |l| ==> NameByte(l[i]) && l[i] != DOT
  }

  predicate LabelsOk(ls: seq<seq<byte>>) {
    forall i :: 0 <= i < |ls| ==> LabelOk(ls[i])
  }

  /** Labels with dots between them. */
  function Join(ls: seq<seq<byte>>): seq<byte> {
    if ls == [] then [] else if |ls| == 1 then ls[0] else ls[0] + [DOT] + Join(ls[1..])
  }

  /** Where the label at `i` ends. */
  function LabelEnd(n: seq<byte>, i: nat): (r: nat)
    requires i <= |n|
    ensures i <= r <= |n| && (r < |n| ==> n[r] == DOT) && forall k :: i <= k < r ==> n[k] != DOT
    decreases |n| - i
  {
    if i < |n| && n[i] != DOT then LabelEnd(n, i + 1) else i
  }

  /** The labels of a text from `i` on; there is always at least one, possibly empty. */
  function Labels(n: seq<byte>, i: nat): (r: seq<seq<byte>>)
    requires i <= |n|
    ensures r != []
    decreases |n| - i
  {
    var e := LabelEnd(n, i);
    [n[i..e]] + if e == |n| then [] else Labels(n, e + 1)
  }

  lemma LabelsStep(n: seq<byte>, i: nat)
    requires i <= |n|
    ensures var e := LabelEnd(n, i);
            Labels(n, i) == [n[i..e]] + if e == |n| then [] else Labels(n, e + 1)
  {
    hide LabelEnd;
  }

  lemma JoinStep(first: seq<byte>, rest: seq<seq<byte>>)
    ensures Join([first] + rest) == if rest == [] then first else first + [DOT] + Join(rest)
  {
    assert ([first] + rest)[1..] == rest;
  }

  lemma {:induction false} JoinLabels(n: seq<byte>, i: nat)
    requires i <= |n|
    ensures Join(Labels(n, i)) == n[i..]
    decreases |n| - i
  {
    hide Join, Labels, LabelEnd;
    var e := LabelEnd(n, i);
    LabelsStep(n, i);
    JoinStep(n[i..e], if e == |n| then [] else Labels(n, e + 1));
    if e < |n| {
      JoinLabels(n, e + 1);
      assert n[i..] == n[i..e] + [DOT] + n[e + 1..];
    }
  }

  /** A name without a trailing dot: nonempty labels of allowed bytes, none too long. */
  predicate ValidName(n: seq<byte>) {
    LabelsOk(Labels(n, 0)) && |n| <= NAME_MAX
  }

  /** One trailing dot is only the root and is dropped. */
  function WithoutRoot(name: seq<byte>): seq<byte> {
    if name != [] && name[|name| - 1] == DOT then name[..|name| - 1] else name
  }

  lemma {:induction false} JoinLength(ls: seq<seq<byte>>)
    requires LabelsOk(ls) && ls != []
    ensures 2 * |ls| - 1 <= |Join(ls)|
  {
    if |ls| > 1 {
      assert LabelsOk(ls[1..]);
      JoinLength(ls[1..]);
    }
    assert LabelOk(ls[0]);
  }

  // --------------------------------------------------------------------------------------
  // dns_validate_and_copy_name

  /** What the loop accepts from `i`, `run` bytes into a label. */
  predicate AcceptsFrom(n: seq<byte>, i: nat, run: nat)
    requires i <= |n|
    decreases |n| - i
  {
    if i == |n| then 0 < run <= LABEL_MAX
    else if n[i] == DOT then 0 < run <= LABEL_MAX && AcceptsFrom(n, i + 1, 0)
    else NameByte(n[i]) && run + 1 <= LABEL_MAX && AcceptsFrom(n, i + 1, run + 1)
  }

  lemma {:induction false} AcceptsIsLabels(n: seq<byte>, start: nat, i: nat)
    requires start <= |n| && start <= i <= LabelEnd(n, start)
    requires forall k :: start <= k < i ==> NameByte(n[k])
    requires i - start <= LABEL_MAX
    ensures AcceptsFrom(n, i, i - start) <==> LabelsOk(Labels(n, start))
    decreases |n| - i
  {
    hide Labels, LabelEnd;
    var e := LabelEnd(n, start);
    var first := n[start..e];
    LabelsStep(n, start);
    SplitLabels(first, if e == |n| then [] else Labels(n, e + 1));
    if i == e {
      assert LabelOk(first) <==> 0 < |first|;
      if e < |n| {
        AcceptsIsLabels(n, e + 1, e + 1);
      }
    } else if !NameByte(n[i]) || i - start + 1 > LABEL_MAX {
      assert first[i - start] == n[i];
      assert !LabelOk(first);
    } else {
      AcceptsIsLabels(n, start, i + 1);
    }
  }

  lemma SplitLabels(first: seq<byte>, rest: seq<seq<byte>>)
    ensures LabelsOk([first] + rest) <==> LabelOk(first) && LabelsOk(rest)
  {
    var all := [first] + rest;
    assert all[0] == first;
    assert forall i :: 0 <= i < |rest| ==> all[i + 1] == rest[i];
    if LabelsOk(all) {
      forall i | 0 <= i < |rest| ensures LabelOk(rest[i]) {
        assert LabelOk(all[i + 1]);
      }
    }
  }

  lemma AcceptsWhole(n: seq<byte>)
    ensures AcceptsFrom(n, 0, 0) <==> LabelsOk(Labels(n, 0))
  {
    AcceptsIsLabels(n, 0, 0);
  }

  /** dns_validate_and_copy_name: the name without its root dot, if it is a name. */
  method ValidateName(name: seq<byte>) returns (r: Option<seq<byte>>)
    ensures r == if name != [] && |name| <= NAME_MAX && ValidName(WithoutRoot(name)) then Some(WithoutRoot(name)) else None
  {
    hide NameByte, Labels, LabelOk;
    if |name| == 0 { return None; }
    ghost var n := WithoutRoot(name);
    AcceptsWhole(n);
    var length, run := 0, 0;
    while length < |name|
      invariant length <= |n| && length <= NAME_MAX
      invariant AcceptsFrom(n, 0, 0) <==> AcceptsFrom(n, length, run)
    {
      if length >= NAME_MAX { return None; }
      if name[length] == DOT {
        if run == 0 || run > LABEL_MAX { return None; }
        if length + 1 == |name| { return Some(name[..length]); }
        run := 0;
      } else {
        if !NameByte(name[length]) { return None; }
        run := run + 1;
        if run > LABEL_MAX { return None; }
      }
      length := length + 1;
    }
    if run == 0 || run > LABEL_MAX { return None; }
    return Some(name);
  }

  // --------------------------------------------------------------------------------------
  // dns_encode_name

  /** Length-prefixed labels, without the terminating zero. */
  function WireLabels(ls: seq<seq<byte>>): seq<byte>
    requires LabelsOk(ls)
  {
    if ls == [] then [] else [|ls[0]|] + ls[0] + WireLabels(ls[1..])
  }

  function Wire(n: seq<byte>): seq<byte>
    requires LabelsOk(Labels(n, 0))
  {
    WireLabels(Labels(n, 0)) + [0]
  }

  lemma {:induction false} WireLength(ls: seq<seq<byte>>)
    requires LabelsOk(ls) && ls != []
    ensures |WireLabels(ls)| == |Join(ls)| + 1
  {
    if |ls| > 1 {
      WireLength(ls[1..]);
    } else {
      assert WireLabels(ls[1..]) == [];
    }
  }

  /** A valid name takes two bytes more on the wire and always fits a query. */
  lemma WireFits(n: seq<byte>)
    requires ValidName(n)
    ensures |Wire(n)| == |n| + 2 && HEADER_SIZE + |Wire(n)| + 4 <= QUERY_CAPACITY
  {
    JoinLabels(n, 0);
    WireLength(Labels(n, 0));
    assert n[0..] == n;
  }

  lemma {:induction false} WireAppend(ls: seq<seq<byte>>, l: seq<byte>)
    requires LabelsOk(ls) && LabelOk(l)
    ensures LabelsOk(ls + [l]) && WireLabels(ls + [l]) == WireLabels(ls) + [|l|] + l
  {
    var all := ls + [l];
    assert forall i :: 0 <= i < |all| ==> all[i] == if i < |ls| then ls[i] else l;
    if ls == [] {
      assert all[1..] == [];
      assert WireLabels(all) == [|l|] + l + WireLabels([]);
      assert WireLabels(all) == WireLabels(ls) + [|l|] + l;
    } else {
      WireAppend(ls[1..], l);
      assert all[1..] == ls[1..] + [l];
      assert WireLabels(all) == [|ls[0]|] + ls[0] + (WireLabels(ls[1..]) + [|l|] + l);
      assert WireLabels(all) == WireLabels(ls) + [|l|] + l;
    }
  }

  /** The labels before a place where a label starts. */
  ghost predicate LabelStart(n: seq<byte>, i: nat, before: seq<seq<byte>>) {
    i <= |n| && Labels(n, 0) == before + Labels(n, i)
  }

  lemma NextLabel(n: seq<byte>, i: nat, before: seq<seq<byte>>)
    requires LabelStart(n, i, before)
    ensures var e := LabelEnd(n, i);
            && Labels(n, 0) == before + [n[i..e]] + (if e == |n| then [] else Labels(n, e + 1))
            && (e < |n| ==> LabelStart(n, e + 1, before + [n[i..e]]))
  {
    hide Labels, LabelEnd;
    LabelsStep(n, i);
    var e := LabelEnd(n, i);
    var rest := if e == |n| then [] else Labels(n, e + 1);
    assert before + ([n[i..e]] + rest) == before + [n[i..e]] + rest;
  }

  method FindLabelEnd(n: seq<byte>, i: nat) returns (e: nat)
    requires i <= |n|
    ensures e == LabelEnd(n, i)
  {
    e := i;
    while e < |n| && n[e] != DOT
      invariant i <= e <= |n| && LabelEnd(n, i) == LabelEnd(n, e)
    {
      e := e + 1;
    }
  }

  /** dns_encode_name into `capacity` bytes of `buffer` from `at` on; 0 if they are too few. */
  method EncodeName(buffer: array<byte>, at: nat, capacity: nat, name: seq<byte>) returns (size: nat)
    requires ValidName(name) && at + capacity <= buffer.Length
    modifies buffer
    ensures size == if |name| + 2 <= capacity then |Wire(name)| else 0
    ensures size > 0 ==> at + size <= buffer.Length && buffer[at..at + size] == Wire(name)
    ensures buffer[..at] == old(buffer[..at])
  {
    hide Labels, LabelOk, WireLabels;
    WireFits(name);
    ghost var before: seq<seq<byte>> := [];
    ghost var head := buffer[..at];
    var start, offset := 0, 0;
    assert [] + Labels(name, 0) == Labels(name, 0);
    WireNone();
    assert buffer[at..at] == [];
    while true
      invariant start <= |name| && LabelStart(name, start, before) && LabelsOk(before)
      invariant offset == |WireLabels(before)| && at + offset <= buffer.Length
      invariant buffer[at..at + offset] == WireLabels(before) && buffer[..at] == head
      decreases |name| - start
    {
      var end := FindLabelEnd(name, start);
      var piece := name[start..end];
      NextLabel(name, start, before);
      LabelOf(Labels(name, 0), |before|, piece);
      ghost var rest := if end == |name| then [] else Labels(name, end + 1);
      WirePrefix(before + [piece], rest);
      WireAppend(before, piece);
      // A valid name's labels are never empty or too long here.
      if offset + 1 + |piece| >= capacity { return 0; }
      PutLabel(buffer, at, offset, piece);
      offset := offset + 1 + |piece|;
      before := before + [piece];
      if end == |name| { break; }
      start := end + 1;
    }
    assert before + [] == before;
    ghost var body := buffer[at..at + offset];
    Store(buffer, at + offset, [0]);
    assert buffer[..at + offset][at..] == body;
    size := offset + 1;
    assert buffer[at..at + size] == body + buffer[at + offset..at + offset + 1];
    assert buffer[..at] == buffer[..at + offset][..at];
  }

  method PutLabel(buffer: array<byte>, at: nat, offset: nat, piece: seq<byte>)
    requires |piece| <= LABEL_MAX && at + offset + 1 + |piece| <= buffer.Length
    modifies buffer
    ensures buffer[at..at + offset + 1 + |piece|] == old(buffer[at..at + offset]) + [|piece|] + piece
    ensures buffer[..at] == old(buffer[..at])
  {
    ghost var all, done := buffer[..at + offset], buffer[at..at + offset];
    Store(buffer, at + offset, [|piece|]);
    ghost var mid := buffer[..at + offset + 1];
    assert mid == buffer[..at + offset] + buffer[at + offset..at + offset + 1];
    Store(buffer, at + offset + 1, piece);
    assert buffer[..at + offset + 1] == mid;
    assert buffer[at..at + offset + 1 + |piece|] == buffer[..at + offset + 1][at..] + buffer[at + offset + 1..at + offset + 1 + |piece|];
    assert buffer[..at + offset + 1][at..] == all[at..] + [|piece|];
    assert all[at..] == done;
    assert buffer[..at] == buffer[..at + offset + 1][..at] == all[..at];
    assert all[..at] == old(buffer[..at]);
  }

  lemma WireNone()
    ensures WireLabels([]) == []
  {
  }

  lemma LabelOf(ls: seq<seq<byte>>, k: nat, l: seq<byte>)
    requires LabelsOk(ls) && k < |ls| && ls[k] == l
    ensures LabelOk(l) && 0 < |l| <= LABEL_MAX && LabelsOk(ls[..k])
  {
    assert LabelOk(ls[k]);
  }

  lemma {:induction false} WirePrefix(a: seq<seq<byte>>, b: seq<seq<byte>>)
    requires LabelsOk(a + b)
    ensures LabelsOk(a) && LabelsOk(b) && |WireLabels(a)| <= |WireLabels(a + b)|
  {
    var all := a + b;
    assert forall i :: 0 <= i < |a| ==> a[i] == all[i];
    assert forall i :: 0 <= i < |b| ==> b[i] == all[|a| + i];
    if a != [] {
      assert all[1..] == a[1..] + b;
      WirePrefix(a[1..], b);
    }
  }

  // --------------------------------------------------------------------------------------
  // dns_expand_name

  datatype Expanded = Expanded(name: seq<byte>, next: nat)

  predicate BytesOk(l: seq<byte>) {
    forall i :: 0 <= i < |l| ==> NameByte(l[i])
  }

  /** The text so far with one more label, if it stays within the limit. */
  function Extended(out: seq<byte>, l: seq<byte>): (r: Option<seq<byte>>)
    ensures r.Some? && |out| <= NAME_MAX ==> |r.value| <= NAME_MAX
  {
    var dotted := if out == [] then [] else out + [DOT];
    if (out != [] && |out| >= NAME_MAX) || |l| > NAME_MAX - |dotted| || !BytesOk(l) then None else Some(dotted + l)
  }

  /** Where a pointer at `at` leads. */
  function Target(msg: seq<byte>, at: nat): nat
    requires at + 1 < |msg| && msg[at] >= 0xC0
  {
    (msg[at] as int - 0xC0) * 256 + msg[at + 1] as int
  }

  /** What stands at one place of a name. */
  datatype Step = Stop | End | Jump(target: nat) | Piece(bytes: seq<byte>)

  function StepAt(msg: seq<byte>, at: nat): (r: Step)
    ensures !r.Stop? ==> at < |msg|
    ensures r.Jump? ==> r.target < |msg|
    ensures r.Piece? ==> 0 < |r.bytes| <= LABEL_MAX && at + 1 + |r.bytes| <= |msg|
  {
    if at >= |msg| then Stop
    else if msg[at] >= 0xC0 then
      (if at + 1 >= |msg| || Target(msg, at) >= |msg| then Stop else Jump(Target(msg, at)))
    else if msg[at] > LABEL_MAX then Stop
    else if msg[at] == 0 then End
    else if msg[at] > |msg| - (at + 1) then Stop
    else Piece(msg[at + 1..at + 1 + msg[at]])
  }

  /** The name at `cursor`, following compression pointers; `resume` is where the record goes on
      once a pointer was taken, `hops` counts the steps. */
  function Expand(msg: seq<byte>, cursor: nat, out: seq<byte>, resume: Option<nat>, hops: nat): (r: Option<Expanded>)
    requires |out| <= NAME_MAX
    ensures r.Some? ==> |r.value.name| <= NAME_MAX
    decreases if hops <= MAX_HOPS then MAX_HOPS + 1 - hops else 0
  {
    if hops > MAX_HOPS then None
    else
      match StepAt(msg, cursor)
      case Stop => None
      case End => Some(Expanded(out, if resume.Some? then resume.value else cursor + 1))
      case Jump(target) => Expand(msg, target, out, Some(if resume.Some? then resume.value else cursor + 2), hops + 1)
      case Piece(l) =>
        match Extended(out, l)
        case None => None
        case Some(more) => Expand(msg, cursor + 1 + |l|, more, resume, hops + 1)
  }

  /** dns_expand_name: every walk ends, within the hop bound and the name limit. */
  method ExpandName(msg: seq<byte>, offset: nat) returns (r: Option<Expanded>)
    ensures r == Expand(msg, offset, [], None, 0)
  {
    hide Extended, StepAt;
    var cursor: nat, hops: nat := offset, 0;
    var out: seq<byte> := [];
    var resume: Option<nat> := None;
    while true
      invariant |out| <= NAME_MAX && hops <= MAX_HOPS + 1
      invariant Expand(msg, offset, [], None, 0) == Expand(msg, cursor, out, resume, hops)
      decreases MAX_HOPS + 1 - hops
    {
      if hops > MAX_HOPS { return None; }
      var step := ReadStep(msg, cursor);
      match step {
        case Stop => return None;
        case End => return Some(Expanded(out, if resume.Some? then resume.value else cursor + 1));
        case Jump(target) =>
          resume := Some(if resume.Some? then resume.value else cursor + 2);
          cursor := target;
        case Piece(l) =>
          var more := AppendLabel(out, l);
          if more.None? { return None; }
          out := more.value;
          cursor := cursor + 1 + |l|;
      }
      hops := hops + 1;
    }
  }

  /** The length byte and what it announces. */
  method ReadStep(msg: seq<byte>, at: nat) returns (r: Step)
    ensures r == StepAt(msg, at)
  {
    var cursor := at;
    if cursor >= |msg| { return Stop; }
    var length := msg[cursor];
    cursor := cursor + 1;
    if length >= 0xC0 {
      if cursor >= |msg| { return Stop; }
      var target := (length as int - 0xC0) * 256 + msg[cursor] as int;
      if target >= |msg| { return Stop; }
      return Jump(target);
    }
    if length > LABEL_MAX { return Stop; }
    if length == 0 { return End; }
    if length > |msg| - cursor { return Stop; }
    return Piece(msg[cursor..cursor + length]);
  }

  method AppendLabel(out: seq<byte>, l: seq<byte>) returns (r: Option<seq<byte>>)
    requires |out| <= NAME_MAX
    ensures r == Extended(out, l)
  {
    var more := out;
    if |out| != 0 {
      if |out| >= NAME_MAX { return None; }
      more := out + [DOT];
    }
    if |l| > NAME_MAX - |more| { return None; }
    ghost var dotted := more;
    for i := 0 to |l|
      invariant BytesOk(l[..i]) && more == dotted + l[..i]
    {
      if !NameByte(l[i]) { return None; }
      assert l[..i + 1] == l[..i] + [l[i]];
      more := more + [l[i]];
    }
    assert l[..|l|] == l;
    return Some(more);
  }

  // --------------------------------------------------------------------------------------
  // What a message says at an offset, without limits

  /** In `steps` steps the bytes at `at` spell these labels: a zero ends the name, a length is
      followed by its label, a pointer leads elsewhere. */
  predicate Spells(msg: seq<byte>, at: nat, ls: seq<seq<byte>>, steps: nat)
    decreases steps
  {
    && steps > 0
    && match StepAt(msg, at)
       case Stop => false
       case End => ls == [] && steps == 1
       case Jump(target) => Spells(msg, target, ls, steps - 1)
       case Piece(l) => ls != [] && ls[0] == l && Spells(msg, at + 1 + |l|, ls[1..], steps - 1)
  }

  /** Where the name at `at` ends in place: after its zero or its first pointer. */
  function PlaceEnd(msg: seq<byte>, at: nat): nat
    decreases if at < |msg| then |msg| - at else 0
  {
    match StepAt(msg, at)
    case Stop => at
    case End => at + 1
    case Jump(_) => at + 2
    case Piece(l) => PlaceEnd(msg, at + 1 + |l|)
  }

  /** More labels after a text. */
  function Glue(out: seq<byte>, ls: seq<seq<byte>>): seq<byte> {
    if ls == [] then out else if out == [] then Join(ls) else out + [DOT] + Join(ls)
  }

  predicate AllBytesOk(ls: seq<seq<byte>>) {
    forall i :: 0 <= i < |ls| ==> BytesOk(ls[i]) && ls[i] != []
  }

  lemma GlueStep(out: seq<byte>, ls: seq<seq<byte>>)
    requires ls != [] && ls[0] != []
    ensures var more := (if out == [] then [] else out + [DOT]) + ls[0];
            && more != [] && Glue(more, ls[1..]) == Glue(out, ls)
            && |Glue(out, ls)| >= |more|
  {
    JoinStep(ls[0], ls[1..]);
    assert ls == [ls[0]] + ls[1..];
    var more := (if out == [] then [] else out + [DOT]) + ls[0];
    if ls[1..] != [] {
      if out == [] {
        assert more == ls[0];
      } else {
        assert more + [DOT] + Join(ls[1..]) == out + [DOT] + (ls[0] + [DOT] + Join(ls[1..]));
      }
    }
  }

  lemma ExtendedIs(out: seq<byte>, l: seq<byte>)
    requires l != [] && |out| <= NAME_MAX
    ensures var more := (if out == [] then [] else out + [DOT]) + l;
            Extended(out, l) == if BytesOk(l) && |more| <= NAME_MAX then Some(more) else None
  {
  }

  /** What the message spells within the limits is what expansion returns. */
  lemma {:induction false} SpelledExpands(msg: seq<byte>, at: nat, ls: seq<seq<byte>>, steps: nat,
                                          out: seq<byte>, resume: Option<nat>, hops: nat)
    requires Spells(msg, at, ls, steps) && AllBytesOk(ls)
    requires |out| <= NAME_MAX && |Glue(out, ls)| <= NAME_MAX && hops + steps <= MAX_HOPS + 1
    ensures Expand(msg, at, out, resume, hops)
         == Some(Expanded(Glue(out, ls), if resume.Some? then resume.value else PlaceEnd(msg, at)))
    decreases steps
  {
    hide Glue, Extended, BytesOk, StepAt;
    match StepAt(msg, at)
    case End => GlueNothing(out);
    case Jump(target) =>
      SpelledExpands(msg, target, ls, steps - 1, out, Some(if resume.Some? then resume.value else at + 2), hops + 1);
    case Piece(l) =>
      GlueStep(out, ls);
      ExtendedIs(out, l);
      SpelledExpands(msg, at + 1 + |l|, ls[1..], steps - 1, Extended(out, l).value, resume, hops + 1);
  }

  lemma GlueNothing(out: seq<byte>)
    ensures Glue(out, []) == out
  {
  }

  /** What expansion returns is spelled by the message, within the limits. */
  lemma {:induction false} ExpandedIsSpelled(msg: seq<byte>, at: nat, out: seq<byte>, resume: Option<nat>, hops: nat)
    returns (ls: seq<seq<byte>>, steps: nat)
    requires |out| <= NAME_MAX && Expand(msg, at, out, resume, hops).Some?
    ensures Spells(msg, at, ls, steps) && AllBytesOk(ls) && hops + steps <= MAX_HOPS + 1
    ensures Expand(msg, at, out, resume, hops).value.name == Glue(out, ls)
    decreases if hops <= MAX_HOPS then MAX_HOPS + 1 - hops else 0
  {
    hide Glue, Extended, BytesOk, StepAt;
    match StepAt(msg, at)
    case End =>
      GlueNothing(out);
      ls, steps := [], 1;
    case Jump(target) =>
      var inner;
      ls, inner := ExpandedIsSpelled(msg, target, out, Some(if resume.Some? then resume.value else at + 2), hops + 1);
      steps := inner + 1;
    case Piece(l) =>
      ExtendedIs(out, l);
      var rest, inner := ExpandedIsSpelled(msg, at + 1 + |l|, Extended(out, l).value, resume, hops + 1);
      ls, steps := [l] + rest, inner + 1;
      assert ls[1..] == rest;
      GlueStep(out, ls);
  }

  /** Expansion gives a name exactly when the message spells one in at most 129 steps, of
      printable labels and at most 253 bytes; and then that name and the right next offset. */
  lemma ExpandIff(msg: seq<byte>, at: nat, name: seq<byte>, next: nat)
    ensures Expand(msg, at, [], None, 0) == Some(Expanded(name, next))
       <==> next == PlaceEnd(msg, at) && |name| <= NAME_MAX
            && exists ls, steps: nat ::
                 Spells(msg, at, ls, steps) && steps <= MAX_HOPS + 1 && AllBytesOk(ls) && name == Glue([], ls)
  {
    hide Expand, Spells, Glue, AllBytesOk;
    if Expand(msg, at, [], None, 0) == Some(Expanded(name, next)) {
      var ls, steps := ExpandedIsSpelled(msg, at, [], None, 0);
      SpelledExpands(msg, at, ls, steps, [], None, 0);
    }
    if next == PlaceEnd(msg, at) && |name| <= NAME_MAX {
      if ls, steps: nat :| Spells(msg, at, ls, steps) && steps <= MAX_HOPS + 1 && AllBytesOk(ls) && name == Glue([], ls) {
        SpelledExpands(msg, at, ls, steps, [], None, 0);
      }
    }
  }

  // --------------------------------------------------------------------------------------
  // What a text says of its labels

  predicate Dotless(ls: seq<seq<byte>>) {
    forall i :: 0 <= i < |ls| ==> DOT !in ls[i]
  }

  lemma {:induction false} PiecesAreDotless(n: seq<byte>, i: nat)
    requires i <= |n|
    ensures Dotless(Labels(n, i))
    decreases |n| - i
  {
    hide LabelEnd, Labels;
    var e := LabelEnd(n, i);
    LabelsStep(n, i);
    if e < |n| { PiecesAreDotless(n, e + 1); }
  }

  lemma {:induction false} EndOfLabel(n: seq<byte>, i: nat, e: nat)
    requires i <= e <= |n| && (forall k :: i <= k < e ==> n[k] != DOT) && (e < |n| ==> n[e] == DOT)
    ensures LabelEnd(n, i) == e
    decreases e - i
  {
    if i < e { EndOfLabel(n, i + 1, e); }
  }

  lemma EndShift(n: seq<byte>, at: nat, rest: seq<byte>, i: nat)
    requires at <= |n| && n[at..] == rest && i <= |rest|
    ensures LabelEnd(n, at + i) == at + LabelEnd(rest, i)
  {
    hide LabelEnd;
    var e := LabelEnd(rest, i);
    forall k | at + i <= k < at + e ensures n[k] != DOT {
      assert n[k] == n[at..][k - at];
    }
    if e < |rest| { assert n[at + e] == n[at..][e]; }
    EndOfLabel(n, at + i, at + e);
  }

  /** Labels of a text that starts with a label and a dot. */
  lemma {:induction false} LabelsShift(l: seq<byte>, rest: seq<byte>, i: nat)
    requires i <= |rest|
    ensures Labels(l + [DOT] + rest, |l| + 1 + i) == Labels(rest, i)
    decreases |rest| - i
  {
    hide LabelEnd, Labels;
    var n, at := l + [DOT] + rest, |l| + 1;
    var e := LabelEnd(rest, i);
    assert n[at..] == rest;
    LabelsStep(rest, i);
    LabelsStep(n, at + i);
    EndShift(n, at, rest, i);
    assert n[at + i..at + e] == n[at..][i..e];
    if e < |rest| { LabelsShift(l, rest, e + 1); }
  }

  lemma {:induction false} LabelsOfJoin(ls: seq<seq<byte>>)
    requires ls != [] && Dotless(ls)
    ensures Labels(Join(ls), 0) == ls
    decreases |ls|
  {
    hide LabelEnd, Labels;
    var l, n := ls[0], Join(ls);
    LabelsStep(n, 0);
    assert DOT !in l;
    if |ls| == 1 {
      EndOfLabel(n, 0, |n|);
      assert n[0..|n|] == n;
    } else {
      var rest := Join(ls[1..]);
      assert forall k :: 0 <= k < |l| ==> n[k] == l[k];
      EndOfLabel(n, 0, |l|);
      assert n[0..|l|] == l;
      LabelsShift(l, rest, 0);
      LabelsOfJoin(ls[1..]);
      assert ls == [l] + ls[1..];
    }
  }

  /** A text gives back the labels it was made of exactly when none of them holds a dot. */
  lemma LabelsReadBackIff(ls: seq<seq<byte>>)
    requires ls != []
    ensures Labels(Join(ls), 0) == ls <==> Dotless(ls)
  {
    hide Labels, Join;
    PiecesAreDotless(Join(ls), 0);
    if Dotless(ls) { LabelsOfJoin(ls); }
  }

  lemma {:induction false} JoinIsSomething(ls: seq<seq<byte>>)
    requires ls != [] && AllBytesOk(ls)
    ensures Join(ls) != []
  {
  }

  /** So two names that expand to the same text, in one message or in two, have the same labels
      when no label of either holds a dot. */
  lemma TextDeterminesLabels(m1: seq<byte>, at1: nat, a: seq<seq<byte>>, s1: nat, m2: seq<byte>, at2: nat, b: seq<seq<byte>>, s2: nat)
    requires Spells(m1, at1, a, s1) && s1 <= MAX_HOPS + 1 && AllBytesOk(a) && Dotless(a)
    requires Spells(m2, at2, b, s2) && s2 <= MAX_HOPS + 1 && AllBytesOk(b) && Dotless(b)
    requires Expand(m1, at1, [], None, 0).Some? && Expand(m2, at2, [], None, 0).Some?
    requires Expand(m1, at1, [], None, 0).value.name == Expand(m2, at2, [], None, 0).value.name
    ensures a == b
  {
    hide Expand, Spells, Labels, Join, AllBytesOk, Dotless;
    NameOfSpelled(m1, at1, a, s1);
    NameOfSpelled(m2, at2, b, s2);
    if a != [] { JoinIsSomething(a); LabelsReadBackIff(a); }
    if b != [] { JoinIsSomething(b); LabelsReadBackIff(b); }
  }

  lemma {:induction false} OneSpelling(msg: seq<byte>, at: nat, a: seq<seq<byte>>, s: nat, b: seq<seq<byte>>, t: nat)
    requires Spells(msg, at, a, s) && Spells(msg, at, b, t)
    ensures a == b && s == t
    decreases s
  {
    hide StepAt;
    match StepAt(msg, at)
    case End =>
    case Jump(target) => OneSpelling(msg, target, a, s - 1, b, t - 1);
    case Piece(l) =>
      OneSpelling(msg, at + 1 + |l|, a[1..], s - 1, b[1..], t - 1);
      assert a == [l] + a[1..] && b == [l] + b[1..];
  }

  lemma NameOfSpelled(msg: seq<byte>, at: nat, ls: seq<seq<byte>>, steps: nat)
    requires Spells(msg, at, ls, steps) && Expand(msg, at, [], None, 0).Some?
    ensures Expand(msg, at, [], None, 0).value.name == Glue([], ls)
  {
    hide Expand, Spells, Glue, AllBytesOk;
    var other, n := ExpandedIsSpelled(msg, at, [], None, 0);
    OneSpelling(msg, at, ls, steps, other, n);
  }

  /** One label with a dot in it and two labels: the names differ, their texts do not. */
  const ONE_LABEL: seq<byte> := [3, 97, DOT, 98, 0]
  const TWO_LABELS: seq<byte> := [1, 97, 1, 98, 0]

  lemma DottedLabel()
    ensures Spells(ONE_LABEL, 0, [[97, DOT, 98]], 2) && Spells(TWO_LABELS, 0, [[97], [98]], 3)
    ensures Expand(ONE_LABEL, 0, [], None, 0) == Expand(TWO_LABELS, 0, [], None, 0) == Some(Expanded([97, DOT, 98], 5))
  {
    hide Expand, PlaceEnd, StepAt, Spells;
    var none: seq<seq<byte>>, one: seq<seq<byte>>, last: seq<seq<byte>>, two: seq<seq<byte>> := [], [[97, DOT, 98]], [[98]], [[97], [98]];
    SpellEnd(ONE_LABEL, 4);
    SpellEnd(TWO_LABELS, 4);
    assert ONE_LABEL[1..4] == one[0] && one[1..] == none;
    SpellPiece(ONE_LABEL, 0, one, 1);
    assert TWO_LABELS[3..4] == last[0] && last[1..] == none;
    SpellPiece(TWO_LABELS, 2, last, 1);
    assert TWO_LABELS[1..2] == two[0] && two[1..] == last;
    SpellPiece(TWO_LABELS, 0, two, 2);
    assert Join(two) == [97] + [DOT] + [98] == Join(one);
    SpelledExpands(ONE_LABEL, 0, [[97, DOT, 98]], 2, [], None, 0);
    SpelledExpands(TWO_LABELS, 0, [[97], [98]], 3, [], None, 0);
  }

  // --------------------------------------------------------------------------------------
  // Round trips

  lemma {:induction false} WireIsSpelled(msg: seq<byte>, at: nat, ls: seq<seq<byte>>)
    requires LabelsOk(ls) && at + |WireLabels(ls)| + 1 <= |msg|
    requires msg[at..at + |WireLabels(ls)| + 1] == WireLabels(ls) + [0]
    ensures Spells(msg, at, ls, |ls| + 1) && PlaceEnd(msg, at) == at + |WireLabels(ls)| + 1
    decreases |ls|
  {
    hide Spells, PlaceEnd, StepAt, WireLabels;
    if ls == [] {
      WireNone();
      assert msg[at..at + 1][0] == msg[at];
      SpellEnd(msg, at);
    } else {
      var l, rest := ls[0], WireLabels(ls[1..]);
      assert LabelOk(l);
      WireStep(ls);
      var w := [|l|] + l + (rest + [0]);
      assert w == WireLabels(ls) + [0];
      assert msg[at..at + |w|][0] == msg[at];
      SlicePiece(msg, at, w, 1, |l|);
      SlicePiece(msg, at, w, 1 + |l|, |rest| + 1);
      assert w[1..1 + |l|] == l && w[1 + |l|..1 + |l| + (|rest| + 1)] == rest + [0];
      WireIsSpelled(msg, at + 1 + |l|, ls[1..]);
      SpellPiece(msg, at, ls, |ls|);
    }
  }

  lemma WireStep(ls: seq<seq<byte>>)
    requires LabelsOk(ls) && ls != []
    ensures WireLabels(ls) == [|ls[0]|] + ls[0] + WireLabels(ls[1..])
  {
  }

  lemma SpellEnd(msg: seq<byte>, at: nat)
    requires at < |msg| && msg[at] == 0
    ensures Spells(msg, at, [], 1) && PlaceEnd(msg, at) == at + 1
  {
  }

  lemma SpellPiece(msg: seq<byte>, at: nat, ls: seq<seq<byte>>, steps: nat)
    requires ls != [] && 0 < |ls[0]| <= LABEL_MAX && at + 1 + |ls[0]| <= |msg|
    requires msg[at] == |ls[0]| && msg[at + 1..at + 1 + |ls[0]|] == ls[0]
    requires Spells(msg, at + 1 + |ls[0]|, ls[1..], steps)
    ensures Spells(msg, at, ls, steps + 1) && PlaceEnd(msg, at) == PlaceEnd(msg, at + 1 + |ls[0]|)
  {
  }

  lemma SlicePiece(msg: seq<byte>, at: nat, w: seq<byte>, i: nat, n: nat)
    requires at + |w| <= |msg| && msg[at..at + |w|] == w && i + n <= |w|
    ensures msg[at + i..at + i + n] == w[i..i + n]
  {
    var x, y := msg[at + i..at + i + n], w[i..i + n];
    forall k | 0 <= k < n ensures x[k] == y[k] {
      assert msg[at..at + |w|][i + k] == w[i + k];
    }
  }

  lemma LabelBytes(ls: seq<seq<byte>>)
    requires LabelsOk(ls)
    ensures AllBytesOk(ls)
  {
    forall i | 0 <= i < |ls| ensures BytesOk(ls[i]) && ls[i] != [] {
      assert LabelOk(ls[i]);
    }
  }

  lemma ValidFacts(n: seq<byte>)
    requires ValidName(n)
    ensures Glue([], Labels(n, 0)) == n && |Labels(n, 0)| <= 127
  {
    JoinLabels(n, 0);
    JoinLength(Labels(n, 0));
    assert n[0..] == n;
  }

  /** A name encoded anywhere in a message expands to itself and ends after its encoding. */
  lemma EncodeExpand(msg: seq<byte>, at: nat, n: seq<byte>)
    requires ValidName(n) && at + |Wire(n)| <= |msg| && msg[at..at + |Wire(n)|] == Wire(n)
    ensures Expand(msg, at, [], None, 0) == Some(Expanded(n, at + |n| + 2))
  {
    hide Expand, Spells, Labels, WireLabels, LabelsOk, PlaceEnd;
    var ls := Labels(n, 0);
    WireFits(n);
    WireIsSpelled(msg, at, ls);
    ValidFacts(n);
    LabelBytes(ls);
    SpelledExpands(msg, at, ls, |ls| + 1, [], None, 0);
  }

  /** So does a two-byte pointer to an encoding. */
  lemma PointerExpand(msg: seq<byte>, at: nat, n: seq<byte>)
    requires ValidName(n) && at + 1 < |msg| && msg[at] >= 0xC0
    requires var t := Target(msg, at); t + |Wire(n)| <= |msg| && msg[t..t + |Wire(n)|] == Wire(n)
    ensures Expand(msg, at, [], None, 0) == Some(Expanded(n, at + 2))
  {
    hide Expand, Labels, WireLabels, LabelsOk;
    var ls := Labels(n, 0);
    WireFits(n);
    WireIsSpelled(msg, Target(msg, at), ls);
    assert StepAt(msg, at) == Jump(Target(msg, at));
    ValidFacts(n);
    LabelBytes(ls);
    SpelledExpands(msg, at, ls, |ls| + 2, [], None, 0);
  }

  /** A pointer to itself is refused by the hop bound. */
  lemma {:induction false} CycleIsRefused(msg: seq<byte>, at: nat, out: seq<byte>, resume: Option<nat>, hops: nat)
    requires |out| <= NAME_MAX && at + 1 < |msg| && msg[at] >= 0xC0 && Target(msg, at) == at
    ensures Expand(msg, at, out, resume, hops).None?
    decreases if hops <= MAX_HOPS then MAX_HOPS + 1 - hops else 0
  {
    if hops <= MAX_HOPS {
      CycleIsRefused(msg, at, out, Some(if resume.Some? then resume.value else at + 2), hops + 1);
    }
  }
}
