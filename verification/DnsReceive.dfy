/** kernel/net.c: what a DNS response says, and how long a negative answer may be kept (section 5
    of RFC 2308). */
module DnsReceive {
  import opened Bytes
  import opened Options
  import opened Ipv4
  import N = DnsName
  import A = DnsAnswer
  import C = DnsCache

  const TYPE_SOA: nat := 6
  const SERVER_PORT: u16 := 53
  const RECORDS_MAX: nat := 64
  const NEGATIVE_MAX: nat := 60

  // --------------------------------------------------------------------------------------
  // Zones

  /** dns_name_is_within_zone, on texts. */
  predicate WithinZone(name: seq<byte>, zone: seq<byte>) {
    || zone == []
    || (&& |name| >= |zone| && SameIgnoringCase(name[|name| - |zone|..], zone)
        && (|name| == |zone| || name[|name| - |zone| - 1] == N.DOT))
  }

  predicate SameLabels(a: seq<seq<byte>>, b: seq<seq<byte>>) {
    |a| == |b| && forall i :: 0 <= i < |a| ==> SameIgnoringCase(a[i], b[i])
  }

  /** The last labels of `a` are those of `b`. */
  predicate EndsWith(a: seq<seq<byte>>, b: seq<seq<byte>>) {
    |b| <= |a| && SameLabels(a[|a| - |b|..], b)
  }

  lemma {:induction false} SameEnds(a: seq<byte>, i: nat, b: seq<byte>, j: nat)
    requires i <= |a| && j <= |b| && SameIgnoringCase(a[i..], b[j..])
    ensures N.LabelEnd(a, i) - i == N.LabelEnd(b, j) - j
    decreases |a| - i
  {
    if i < |a| {
      assert a[i..][0] == a[i] && b[j..][0] == b[j];
      SameTail(a, i, b, j, 1);
      if a[i] != N.DOT { SameEnds(a, i + 1, b, j + 1); }
    }
  }

  lemma SameTail(a: seq<byte>, i: nat, b: seq<byte>, j: nat, n: nat)
    requires i + n <= |a| && j + n <= |b| && SameIgnoringCase(a[i..], b[j..])
    ensures SameIgnoringCase(a[i + n..], b[j + n..]) && SameIgnoringCase(a[i..i + n], b[j..j + n])
  {
    assert a[i + n..] == a[i..][n..] && b[j + n..] == b[j..][n..];
    assert a[i..i + n] == a[i..][..n] && b[j..j + n] == b[j..][..n];
  }

  lemma {:induction false} SameTextSameLabels(a: seq<byte>, i: nat, b: seq<byte>, j: nat)
    requires i <= |a| && j <= |b| && SameIgnoringCase(a[i..], b[j..])
    ensures SameLabels(N.Labels(a, i), N.Labels(b, j))
    decreases |a| - i
  {
    hide N.Labels, N.LabelEnd;
    var d, e := N.LabelEnd(a, i), N.LabelEnd(b, j);
    N.LabelsStep(a, i);
    N.LabelsStep(b, j);
    SameEnds(a, i, b, j);
    SameTail(a, i, b, j, d - i);
    if d < |a| {
      SameTail(a, i, b, j, d + 1 - i);
      SameTextSameLabels(a, d + 1, b, e + 1);
    }
  }

  lemma {:induction false} SameLabelsSameText(a: seq<seq<byte>>, b: seq<seq<byte>>)
    requires SameLabels(a, b)
    ensures SameIgnoringCase(N.Join(a), N.Join(b))
    decreases |a|
  {
    if |a| > 1 {
      assert SameLabels(a[1..], b[1..]);
      SameLabelsSameText(a[1..], b[1..]);
      SameTogether(a[0], N.Join(a[1..]), b[0], N.Join(b[1..]));
    }
  }

  lemma SameTogether(a: seq<byte>, x: seq<byte>, b: seq<byte>, y: seq<byte>)
    requires SameIgnoringCase(a, b) && SameIgnoringCase(x, y)
    ensures SameIgnoringCase(a + [N.DOT] + x, b + [N.DOT] + y)
  {
  }

  /** The zone's text at the end of the name's, from a label on. */
  predicate TextEnds(n: seq<byte>, i: nat, z: seq<byte>)
    requires i <= |n|
  {
    var at := |n| - |z|;
    i <= at && SameIgnoringCase(n[at..], z) && (at == i || n[at - 1] == N.DOT)
  }

  lemma TextStep(n: seq<byte>, i: nat, z: seq<byte>)
    requires i <= |n| && (SameIgnoringCase(n[i..], z) ==> |n| - i == |z|)
    ensures var e := N.LabelEnd(n, i);
            TextEnds(n, i, z) <==> SameIgnoringCase(n[i..], z) || (e < |n| && TextEnds(n, e + 1, z))
  {
    hide SameIgnoringCase, N.LabelEnd;
  }

  lemma {:induction false} TextEndsIff(n: seq<byte>, i: nat, z: seq<byte>)
    requires i <= |n|
    ensures TextEnds(n, i, z) <==> EndsWith(N.Labels(n, i), N.Labels(z, 0))
    decreases |n| - i
  {
    hide N.Labels, N.LabelEnd, SameIgnoringCase, EndsWith, TextEnds, SameLabels;
    var e, zs := N.LabelEnd(n, i), N.Labels(z, 0);
    N.LabelsStep(n, i);
    WholeIff(n, i, z);
    TextStep(n, i, z);
    LongerIff(n[i..e], if e == |n| then [] else N.Labels(n, e + 1), zs);
    if e < |n| { TextEndsIff(n, e + 1, z); } else { NoneAreLonger(zs); }
  }

  lemma NoneAreLonger(zs: seq<seq<byte>>)
    requires zs != []
    ensures !EndsWith([], zs)
  {
  }

  /** The whole of a text. */
  lemma WholeIff(n: seq<byte>, i: nat, z: seq<byte>)
    requires i <= |n|
    ensures SameLabels(N.Labels(n, i), N.Labels(z, 0)) <==> SameIgnoringCase(n[i..], z)
    ensures SameIgnoringCase(n[i..], z) ==> |n| - i == |z|
  {
    hide N.Labels;
    assert z[0..] == z;
    if SameIgnoringCase(n[i..], z) { SameTextSameLabels(n, i, z, 0); }
    if SameLabels(N.Labels(n, i), N.Labels(z, 0)) {
      SameLabelsSameText(N.Labels(n, i), N.Labels(z, 0));
      N.JoinLabels(n, i);
      N.JoinLabels(z, 0);
    }
  }

  lemma LongerIff(first: seq<byte>, rest: seq<seq<byte>>, zs: seq<seq<byte>>)
    requires zs != []
    ensures EndsWith([first] + rest, zs) <==> SameLabels([first] + rest, zs) || EndsWith(rest, zs)
  {
    hide SameLabels;
    var all := [first] + rest;
    LengthOf(all, zs);
    if |zs| <= |rest| {
      assert all[|all| - |zs|..] == rest[|rest| - |zs|..];
    } else if |zs| == |all| {
      assert all[0..] == all;
    }
  }

  lemma LengthOf(a: seq<seq<byte>>, b: seq<seq<byte>>)
    ensures SameLabels(a, b) ==> |a| == |b|
  {
  }

  /** A zone holds exactly the names that end with its labels, in whatever case; the root holds all. */
  lemma ZoneIff(name: seq<byte>, zone: seq<byte>)
    ensures WithinZone(name, zone) <==> zone == [] || EndsWith(N.Labels(name, 0), N.Labels(zone, 0))
  {
    hide N.Labels, EndsWith, SameIgnoringCase;
    TextEndsIff(name, 0, zone);
  }

  // --------------------------------------------------------------------------------------
  // dns_find_negative_ttl

  /** The minimum field of a well-formed SOA record: two names and twenty bytes. */
  function SoaMinimum(msg: seq<byte>, r: A.Record): Option<u32>
    requires r.Next() <= |msg|
  {
    match N.Expand(msg, r.at, [], None, 0)
    case None => None
    case Some(server) =>
      if server.name == [] || server.next > r.Next() then None
      else
        match N.Expand(msg, server.next, [], None, 0)
        case None => None
        case Some(mailbox) =>
          if mailbox.name == [] || mailbox.next > r.Next() || r.Next() - mailbox.next != 20 then None
          else Some(ReadU32Be(msg, mailbox.next + 16))
  }

  /** An SOA record of a zone around the name. */
  predicate Authority(msg: seq<byte>, r: A.Record, name: seq<byte>) {
    r.Next() <= |msg| && r.kind == TYPE_SOA && r.class_ == A.CLASS_IN && WithinZone(name, r.owner) && SoaMinimum(msg, r).Some?
  }

  /** How long such a record lets a negative answer live. */
  function Allows(msg: seq<byte>, r: A.Record): nat
    requires r.Next() <= |msg| && SoaMinimum(msg, r).Some?
  {
    A.Min(A.Min(r.ttl, SoaMinimum(msg, r).value), NEGATIVE_MAX)
  }

  /** What one record grants a negative answer for a name, or zero. */
  function GrantOf(msg: seq<byte>, r: A.Record, name: seq<byte>): (t: nat)
    ensures t <= NEGATIVE_MAX
  {
    if Authority(msg, r, name) then Allows(msg, r) else 0
  }

  /** `t` is the least time that one of the first `n` records grants, or zero if none does. */
  ghost predicate LeastGrant(msg: seq<byte>, rs: seq<A.Record>, n: nat, name: seq<byte>, t: nat)
    requires n <= |rs|
  {
    && (t == 0 <==> forall k :: 0 <= k < n ==> GrantOf(msg, rs[k], name) == 0)
    && (t > 0 ==> exists k :: 0 <= k < n && GrantOf(msg, rs[k], name) == t)
    && forall k :: 0 <= k < n && GrantOf(msg, rs[k], name) > 0 ==> t <= GrantOf(msg, rs[k], name)
  }

  function Better(t: nat, candidate: nat): nat {
    if candidate != 0 && (t == 0 || candidate < t) then candidate else t
  }

  lemma LeastNext(msg: seq<byte>, rs: seq<A.Record>, n: nat, name: seq<byte>, t: nat)
    requires n < |rs| && LeastGrant(msg, rs, n, name, t)
    ensures LeastGrant(msg, rs, n + 1, name, Better(t, GrantOf(msg, rs[n], name)))
  {
    hide GrantOf;
  }

  /** The two names of an SOA record, and what it lets live. */
  method ReadGrant(msg: seq<byte>, r: A.Record, name: seq<byte>) returns (t: nat)
    requires r.Next() <= |msg|
    ensures t == GrantOf(msg, r, name)
  {
    hide N.Expand, WithinZone;
    if r.kind != TYPE_SOA || r.class_ != A.CLASS_IN || !WithinZone(name, r.owner) { return 0; }
    var server := N.ExpandName(msg, r.at);
    if server.None? || server.value.name == [] || server.value.next > r.Next() { return 0; }
    var mailbox := N.ExpandName(msg, server.value.next);
    if mailbox.None? || mailbox.value.name == [] || mailbox.value.next > r.Next() || r.Next() - mailbox.value.next != 20 { return 0; }
    var minimum := ReadU32Be(msg, mailbox.value.next + 16);
    t := if r.ttl < minimum then r.ttl else minimum;
    if t > NEGATIVE_MAX { t := NEGATIVE_MAX; }
  }

  /** The next records of the message, one by one. */
  lemma {:induction false} RecordsNext(msg: seq<byte>, offset: nat, count: nat, i: nat)
    requires A.RecordsAt(msg, offset, count).Some? && i < count
    ensures var rs := A.RecordsAt(msg, offset, count).value;
            A.RecordAt(msg, After(rs[..i], offset)) == Some(rs[i])
    decreases count
  {
    hide A.RecordAt;
    if i > 0 {
      var rs := A.RecordsAt(msg, offset, count).value;
      var first := A.RecordAt(msg, offset).value;
      RecordsNext(msg, first.Next(), count - 1, i - 1);
      var rest := A.RecordsAt(msg, first.Next(), count - 1).value;
      assert rs == [first] + rest;
      assert rs[i] == rest[i - 1] && rs[..i] == [first] + rest[..i - 1];
      AfterFirst(first, rest[..i - 1], offset);
    }
  }

  lemma AfterFirst(first: A.Record, rest: seq<A.Record>, offset: nat)
    ensures After([first] + rest, offset) == After(rest, first.Next())
  {
  }

  /** Where a list of records that starts at `offset` ends. */
  function After(rs: seq<A.Record>, offset: nat): nat {
    if rs == [] then offset else rs[|rs| - 1].Next()
  }

  /** dns_find_negative_ttl: the least time that an SOA record of an enclosing zone grants. Records
      that grant none are passed over. */
  method FindNegative(msg: seq<byte>, offset: nat, count: nat, name: seq<byte>) returns (t: nat)
    requires A.RecordsAt(msg, offset, count).Some?
    ensures LeastGrant(msg, A.RecordsAt(msg, offset, count).value, count, name, t) && t <= NEGATIVE_MAX
  {
    hide A.RecordAt, A.RecordsAt, LeastGrant, GrantOf;
    ghost var rs := A.RecordsAt(msg, offset, count).value;
    NoneYet(msg, rs, name);
    var cursor := offset;
    t := 0;
    for i := 0 to count
      invariant cursor == After(rs[..i], offset) && LeastGrant(msg, rs, i, name, t) && t <= NEGATIVE_MAX
    {
      RecordsNext(msg, offset, count, i);
      var record := A.ReadRecord(msg, cursor);
      var candidate := ReadGrant(msg, record.value, name);
      LeastNext(msg, rs, i, name, t);
      assert rs[..i + 1][i] == rs[i];
      t := Better(t, candidate);
      cursor := record.value.Next();
    }
  }

  lemma NoneYet(msg: seq<byte>, rs: seq<A.Record>, name: seq<byte>)
    ensures LeastGrant(msg, rs, 0, name, 0)
  {
  }

  // --------------------------------------------------------------------------------------
  // The sections of a response

  /** Where the next `count` records end. */
  function EndOf(msg: seq<byte>, offset: nat, count: nat): Option<nat>
    decreases count
  {
    if count == 0 then Some(offset)
    else
      match A.RecordAt(msg, offset)
      case None => None
      case Some(r) => EndOf(msg, r.Next(), count - 1)
  }

  lemma {:induction false} EndOfIff(msg: seq<byte>, offset: nat, count: nat)
    ensures EndOf(msg, offset, count)
         == match A.RecordsAt(msg, offset, count) case None => None case Some(rs) => Some(After(rs, offset))
    decreases count
  {
    hide A.RecordAt;
    if count > 0 && A.RecordAt(msg, offset).Some? {
      var r := A.RecordAt(msg, offset).value;
      EndOfIff(msg, r.Next(), count - 1);
      var rest := A.RecordsAt(msg, r.Next(), count - 1);
      if rest.Some? { AfterFirst(r, rest.value, offset); }
    }
  }

  method SkipRecords(msg: seq<byte>, offset: nat, count: nat) returns (r: Option<nat>)
    ensures r == match A.RecordsAt(msg, offset, count) case None => None case Some(rs) => Some(After(rs, offset))
  {
    hide A.RecordAt, A.RecordsAt;
    EndOfIff(msg, offset, count);
    var cursor := offset;
    for i := 0 to count
      invariant EndOf(msg, offset, count) == EndOf(msg, cursor, count - i)
    {
      var record := A.ReadRecord(msg, cursor);
      if record.None? { return None; }
      cursor := record.value.Next();
    }
    return Some(cursor);
  }

  datatype Sections = Sections(answersAt: nat, answers: seq<A.Record>, authorityAt: nat, authority: seq<A.Record>)

  /** Three lists of records that fill the message from `start` on. */
  function SectionsAt(msg: seq<byte>, start: nat, answers: nat, authority: nat, additional: nat): (r: Option<Sections>)
    ensures r.Some? ==> A.RecordsAt(msg, r.value.answersAt, answers) == Some(r.value.answers)
                        && A.RecordsAt(msg, r.value.authorityAt, authority) == Some(r.value.authority)
  {
    match A.RecordsAt(msg, start, answers)
    case None => None
    case Some(rs) =>
      var second := After(rs, start);
      match A.RecordsAt(msg, second, authority)
      case None => None
      case Some(ns) =>
        var third := After(ns, second);
        match A.RecordsAt(msg, third, additional)
        case None => None
        case Some(more) => if After(more, third) == |msg| then Some(Sections(start, rs, second, ns)) else None
  }

  /** dns_validate_record_sections, with the start of the authority section. */
  method CheckSections(msg: seq<byte>, start: nat, answers: nat, authority: nat, additional: nat) returns (r: Option<nat>)
    ensures r == match SectionsAt(msg, start, answers, authority, additional) case None => None case Some(s) => Some(s.authorityAt)
  {
    hide A.RecordsAt;
    var second := SkipRecords(msg, start, answers);
    if second.None? { return None; }
    var third := SkipRecords(msg, second.value, authority);
    if third.None? { return None; }
    var end := SkipRecords(msg, third.value, additional);
    if end.None? || end.value != |msg| { return None; }
    return second;
  }

  // --------------------------------------------------------------------------------------
  // What a response says

  /** A whole answer to a standard query. */
  predicate IsReply(msg: seq<byte>)
    requires |msg| >= N.HEADER_SIZE
  {
    var flags := ReadU16Be(msg, 2);
    flags >= 0x8000 && flags / 0x200 % 2 == 0 && flags / 0x800 % 16 == 0
  }

  function Code(msg: seq<byte>): byte
    requires |msg| >= N.HEADER_SIZE
  {
    ReadU16Be(msg, 2) % 16
  }

  /** It repeats the one question: the address of `name`. */
  function QuestionEnd(msg: seq<byte>, name: seq<byte>): Option<nat> {
    match N.Expand(msg, N.HEADER_SIZE, [], None, 0)
    case None => None
    case Some(e) =>
      if e.next > |msg| || |msg| - e.next < 4 || !SameIgnoringCase(e.name, name)
         || ReadU16Be(msg, e.next) != A.TYPE_A || ReadU16Be(msg, e.next + 2) != A.CLASS_IN then None
      else Some(e.next + 4)
  }

  /** The sections of a reply to the question for `name`, if it is one and well formed. */
  function ReplyTo(msg: seq<byte>, name: seq<byte>): (r: Option<Sections>)
    requires |msg| >= N.HEADER_SIZE
    ensures r.Some? ==> forall k :: 0 <= k < |r.value.answers| ==> r.value.answers[k].Next() <= |msg|
  {
    var answers, authority, additional := ReadU16Be(msg, 6), ReadU16Be(msg, 8), ReadU16Be(msg, 10);
    if !IsReply(msg) || ReadU16Be(msg, 4) != 1 || answers + authority + additional > RECORDS_MAX then None
    else
      match QuestionEnd(msg, name)
      case None => None
      case Some(start) => SectionsAt(msg, start, answers, authority, additional)
  }

  datatype Verdict = BadMessage | Failure | Found(address: u32, ttl: u32) | Missing(ttl: u32)

  /** What the response says about the name. */
  ghost predicate Says(msg: seq<byte>, name: seq<byte>, v: Verdict)
    requires |msg| >= N.HEADER_SIZE
  {
    match ReplyTo(msg, name)
    case None => v == BadMessage
    case Some(s) =>
      if Code(msg) != 0 && Code(msg) != 3 then v == Failure
      else
        match A.Chase(msg, s.answers, name, A.TTL_MAX, 0)
        case Malformed => v == BadMessage
        case Address(ip, ttl, _) => if Code(msg) != 0 then v == BadMessage else v.Found? && v.address == ip && v.ttl == ttl
        case NotFound(ttl, terminal) =>
          v.Missing? && exists g: nat :: LeastGrant(msg, s.authority, |s.authority|, terminal, g) && v.ttl == if g == 0 then 0 else A.Min(g, ttl)
  }

  /** A negative answer with a time: the chain of aliases from the name, and an SOA record of a zone
      around its end. The time is the least over the chain, that zone's record, its minimum field,
      the cap, and every other such record that grants any time at all. */
  ghost predicate Bounded(msg: seq<byte>, s: Sections, names: seq<seq<byte>>, ttls: seq<nat>, k: nat, t: nat) {
    && A.Chain(msg, s.answers, names, ttls) && names != [] && k < |s.authority|
    && var end := names[|names| - 1];
       && A.DeadEnd(msg, s.answers, end)
       && Authority(msg, s.authority[k], end)
       && t <= s.authority[k].ttl && t <= SoaMinimum(msg, s.authority[k]).value && t <= NEGATIVE_MAX
       && (forall i :: 0 <= i < |ttls| ==> t <= ttls[i])
       && (forall i :: 0 <= i < |s.authority| && GrantOf(msg, s.authority[i], end) > 0 ==> t <= GrantOf(msg, s.authority[i], end))
       && (t == Allows(msg, s.authority[k]) || exists i :: 0 <= i < |ttls| && ttls[i] == t)
  }

  lemma NegativeIsBounded(msg: seq<byte>, name: seq<byte>, t: u32) returns (names: seq<seq<byte>>, ttls: seq<nat>, k: nat)
    requires |msg| >= N.HEADER_SIZE && t > 0 && Says(msg, name, Missing(t))
    ensures ReplyTo(msg, name).Some? && (Code(msg) == 0 || Code(msg) == 3)
    ensures Bounded(msg, ReplyTo(msg, name).value, names, ttls, k, t) && names[0] == name && |ttls| <= A.MAX_ALIASES
  {
    hide A.Chase, A.Chain, A.DeadEnd, A.InOrder, A.LeastOf, LeastGrant, ReplyTo, Authority, SoaMinimum, A.Ends, A.Stuck;
    var s := ReplyTo(msg, name).value;
    var chainTtl;
    names, ttls, chainTtl := A.ChaseIsChained(msg, s.answers, name, A.TTL_MAX, 0);
    var end := names[|names| - 1];
    var g: nat :| LeastGrant(msg, s.authority, |s.authority|, end, g) && t == if g == 0 then 0 else A.Min(g, chainTtl);
    k := GrantWitness(msg, s.authority, end, g);
    ChainLeast(chainTtl, A.TTL_MAX, ttls);
  }

  lemma GrantWitness(msg: seq<byte>, rs: seq<A.Record>, name: seq<byte>, g: nat) returns (k: nat)
    requires g > 0 && LeastGrant(msg, rs, |rs|, name, g)
    ensures k < |rs| && Authority(msg, rs[k], name) && Allows(msg, rs[k]) == g
    ensures g <= rs[k].ttl && g <= SoaMinimum(msg, rs[k]).value && g <= NEGATIVE_MAX
    ensures forall i :: 0 <= i < |rs| && GrantOf(msg, rs[i], name) > 0 ==> g <= GrantOf(msg, rs[i], name)
  {
    hide SoaMinimum;
    k :| 0 <= k < |rs| && GrantOf(msg, rs[k], name) == g;
  }

  lemma ChainLeast(t: nat, start: nat, ttls: seq<nat>)
    requires A.LeastOf(t, start, ttls)
    ensures t <= start && (forall k :: 0 <= k < |ttls| ==> t <= ttls[k])
    ensures t == start || exists k :: 0 <= k < |ttls| && ttls[k] == t
  {
  }

  lemma {:induction false} ChaseTime(msg: seq<byte>, rs: seq<A.Record>, name: seq<byte>, ttl: nat, hop: nat)
    requires hop <= A.MAX_ALIASES && forall k :: 0 <= k < |rs| ==> rs[k].Next() <= |msg|
    ensures match A.Chase(msg, rs, name, ttl, hop)
            case Malformed => true case Address(_, t, _) => t <= ttl case NotFound(t, _) => t <= ttl
    decreases A.MAX_ALIASES - hop
  {
    hide A.LookFrom, SameIgnoringCase;
    var look := A.LookFrom(msg, rs, 0, A.NOTHING, name);
    if look.Some? && look.value.address.None? && look.value.alias.Some? && hop < A.MAX_ALIASES
       && !SameIgnoringCase(look.value.alias.value, name) {
      ChaseTime(msg, rs, look.value.alias.value, A.Min(ttl, look.value.aliasTtl), hop + 1);
    }
  }

  // --------------------------------------------------------------------------------------
  // dns_receive

  datatype Status = Idle | Pending | Resolved | NotFound | TimedOut | ServerError | MalformedResponse

  datatype Query = Query(status: Status, name: seq<byte>, id: u16, port: u16, code: byte, address: u32, ttl: u32)

  function Answered(q: Query, msg: seq<byte>, v: Verdict): Query
    requires |msg| >= N.HEADER_SIZE
  {
    var c := if IsReply(msg) then q.(code := Code(msg)) else q;
    match v
    case BadMessage => c.(status := MalformedResponse)
    case Failure => c.(status := ServerError)
    case Found(address, ttl) => c.(status := Resolved, address := address, ttl := ttl)
    case Missing(ttl) => c.(status := NotFound, ttl := ttl)
  }

  /** What is to be remembered of it. */
  function Remembered(v: Verdict, code: byte, now: u64): Option<C.Stored> {
    match v
    case Found(address, ttl) => if ttl == 0 then None else Some(C.Stored(false, address, 0, C.SaturatingAdd(now, ttl * 1000)))
    case Missing(ttl) => if ttl == 0 then None else Some(C.Stored(true, 0, code, C.SaturatingAdd(now, ttl * 1000)))
    case _ => None
  }

  class Resolver {
    const cache: C.Cache
    var query: Query

    constructor (c: C.Cache)
      ensures cache == c && query.status == Idle
    {
      cache, query := c, Query(Idle, [], 0, 0, 0, 0, 0);
    }

    predicate Expects(source: u32, sourcePort: u16, destinationPort: u16, msg: seq<byte>)
      reads this, cache
    {
      && query.status == Pending && source == cache.config.dns && sourcePort == SERVER_PORT && destinationPort == query.port
      && |msg| >= N.HEADER_SIZE && ReadU16Be(msg, 0) == query.id
    }

    /** dns_receive: an expected message ends the query as it says, and an answer is remembered
        until it expires; any other changes nothing. */
    method Receive(source: u32, sourcePort: u16, destinationPort: u16, msg: seq<byte>) returns (handled: bool, ghost v: Verdict)
      requires cache.Valid()
      modifies this`query, cache
      ensures cache.Valid() && cache.now == old(cache.now) && cache.config == old(cache.config)
      ensures handled <==> old(Expects(source, sourcePort, destinationPort, msg))
      ensures !handled ==> query == old(query) && cache.slots == old(cache.slots) && cache.latest == old(cache.latest)
      ensures handled ==> Says(msg, old(query).name, v) && query == Answered(old(query), msg, v)
      ensures handled ==>
                var r := Remembered(v, Code(msg), cache.now);
                && (r.None? ==> cache.latest == old(cache.latest) && cache.slots == old(cache.slots))
                && (r.Some? ==> cache.latest == old(cache.latest)[C.Fold(query.name) := r.value])
    {
      hide C.Ok, C.Fold, Says, IsReply;
      if query.status != Pending || source != cache.config.dns || sourcePort != SERVER_PORT || destinationPort != query.port
         || |msg| < N.HEADER_SIZE || ReadU16Be(msg, 0) != query.id { return false, BadMessage; }
      var verdict := Judge(msg, query.name);
      query := Answered(query, msg, verdict);
      match verdict {
        case Found(address, ttl) => cache.Store(query.name, false, address, 0, ttl);
        case Missing(ttl) => if ttl != 0 { cache.Store(query.name, true, 0, Code(msg), ttl); }
        case _ =>
      }
      return true, verdict;
    }
  }

  /** The checks of dns_receive, in order. */
  method Judge(msg: seq<byte>, name: seq<byte>) returns (v: Verdict)
    requires |msg| >= N.HEADER_SIZE
    ensures Says(msg, name, v)
  {
    hide N.Expand, A.RecordsAt, A.Chase, SectionsAt, LeastGrant, IsReply;
    if !IsReply(msg) { return BadMessage; }
    var answers, authority, additional := ReadU16Be(msg, 6), ReadU16Be(msg, 8), ReadU16Be(msg, 10);
    if ReadU16Be(msg, 4) != 1 || answers + authority + additional > RECORDS_MAX { return BadMessage; }
    var e := N.ExpandName(msg, N.HEADER_SIZE);
    if e.None? || e.value.next > |msg| || |msg| - e.value.next < 4 || !SameIgnoringCase(e.value.name, name)
       || ReadU16Be(msg, e.value.next) != A.TYPE_A || ReadU16Be(msg, e.value.next + 2) != A.CLASS_IN { return BadMessage; }
    var start := e.value.next + 4;
    var authorityAt := CheckSections(msg, start, answers, authority, additional);
    if authorityAt.None? { return BadMessage; }
    if Code(msg) != 0 && Code(msg) != 3 { return Failure; }
    ghost var s := SectionsAt(msg, start, answers, authority, additional).value;
    SectionsStart(msg, start, answers, authority, additional);
    var a := A.FindAddress(msg, start, answers, name);
    ChaseTime(msg, s.answers, name, A.TTL_MAX, 0);
    match a {
      case Malformed => return BadMessage;
      case Address(ip, ttl, _) => return if Code(msg) != 0 then BadMessage else Found(ip, ttl);
      case NotFound(ttl, terminal) =>
        var t := FindNegative(msg, authorityAt.value, authority, terminal);
        ghost var g := t;
        if t != 0 && ttl != A.TTL_MAX && ttl < t { t := ttl; }
        assert t == if g == 0 then 0 else A.Min(g, ttl);
        return Missing(t);
    }
  }

  lemma SectionsStart(msg: seq<byte>, start: nat, answers: nat, authority: nat, additional: nat)
    requires SectionsAt(msg, start, answers, authority, additional).Some?
    ensures var s := SectionsAt(msg, start, answers, authority, additional).value;
            && s.answersAt == start && |s.authority| == authority
            && forall k :: 0 <= k < |s.answers| ==> s.answers[k].Next() <= |msg|
  {
    hide A.RecordsAt;
  }
}
