/** kernel/network.c: the steps of an asynchronous HTTP request, and its whole runs. */
module HttpSteps {
  import opened Bytes
  import opened Options
  import opened UrlPath
  import opened UrlResolve
  import opened HttpGet
  import HttpResponse

  const REDIRECT_LIMIT: nat := 5
  const VISITED_CAPACITY: nat := REDIRECT_LIMIT + 1
  const BODY_MAX: nat := 8191
  const TIMEOUT_MAX: nat := 60000
  const MAX_SEGMENT: nat := 536

  datatype Outcome =
    | Success | NotReady | LinkDown | Busy | InvalidArgument | Timeout | DnsFailed | ConnectionFailed
    | ProtocolError | ResponseTooLarge | UnsupportedFeature | IoError | WasCanceled

  datatype State = Configuring | Resolving | Connecting | Sending | Receiving | Redirecting | Complete | Failed | Canceled

  predicate Terminal(s: State) {
    s.Complete? || s.Failed? || s.Canceled?
  }

  /** A step of the TCP client. */
  datatype Step = StepPending | StepComplete | StepFailed(error: Outcome)

  datatype DnsState = DnsPending | DnsResolved | DnsNotFound | DnsTimedOut

  /** Everything the driver learns from the device, the clock and the stack in one call. */
  datatype Environment = Environment(now: u64, ready: bool, linkUp: bool, configured: bool, dhcpStarts: bool,
                                     literalAddress: bool, queryStarts: bool, dns: DnsState, timeoutsSet: bool,
                                     connect: Step, service: Step, send: Step, wait: Step, close: Step,
                                     received: seq<byte>, parseError: Outcome)

  datatype Request = Request(handle: u64, follow: bool, startedAt: u64, timeout: u32, state: State, result: Outcome,
                             closing: bool, bodyCapacity: nat, bodyOffset: nat, bodyLength: nat,
                             requestLength: nat, requestSent: nat, chunk: nat, status: nat, redirects: nat,
                             url: seq<byte>, visited: seq<seq<byte>>, dnsStarted: bool, tcpActive: bool)

  // --------------------------------------------------------------------------------------
  // The invariant of a request

  predicate NormalUrl(url: seq<byte>) {
    |url| < CAPACITY && Normalized(url) == Some(url)
  }

  /** The URLs fetched so far: one more than the redirects, all different, all in normal form. */
  ghost predicate VisitedOk(visited: seq<seq<byte>>, redirects: nat) {
    && |visited| == redirects + 1 && redirects <= REDIRECT_LIMIT
    && (forall i :: 0 <= i < |visited| ==> NormalUrl(visited[i]))
    && (forall i, j :: 0 <= i < j < |visited| ==> visited[i] != visited[j])
  }

  /** What is left to send, in one segment at most. */
  function Piece(q: Request): nat
    requires q.requestSent <= q.requestLength
  {
    var left := q.requestLength - q.requestSent;
    if left > MAX_SEGMENT then MAX_SEGMENT else left
  }

  ghost predicate SendingOk(q: Request) {
    && q.requestSent <= q.requestLength <= REQUEST_CAPACITY
    && (q.state.Connecting? ==> q.requestLength == 0 && q.chunk == 0)
    && (q.state.Sending? ==> q.chunk == Piece(q) > 0)
  }

  ghost predicate RequestOk(q: Request) {
    Core(q) && SendingOk(q)
  }

  ghost predicate Core(q: Request) {
    && q.handle != 0 && 0 < q.bodyCapacity <= BODY_MAX && 0 < q.timeout <= TIMEOUT_MAX
    && VisitedOk(q.visited, q.redirects) && q.url == q.visited[|q.visited| - 1]
    && (q.state.Complete? ==> q.result == Success && q.bodyLength <= q.bodyCapacity)
    && (q.state.Failed? ==> q.result != Success)
    && (q.state.Canceled? ==> q.result == WasCanceled)
    && (q.dnsStarted ==> q.state.Resolving?)
    && (q.tcpActive ==> q.state.Connecting? || q.state.Sending? || q.state.Receiving?)
    && Parses(q.url) && HASH !in q.url
  }

  lemma NormalHasScheme(url: seq<byte>)
    requires NormalUrl(url)
    ensures |url| >= 7
  {
    hide RemoveDotSegments;
  }

  lemma VisitedMore(visited: seq<seq<byte>>, redirects: nat, url: seq<byte>)
    requires VisitedOk(visited, redirects) && redirects < REDIRECT_LIMIT
    requires url !in visited && NormalUrl(url)
    ensures VisitedOk(visited + [url], redirects + 1)
  {
    hide NormalUrl;
  }

  /** network_http_request_finish: the resolver and the connection are let go. */
  function Finished(q: Request, state: State, result: Outcome): Request {
    q.(state := state, result := result, dnsStarted := false, tcpActive := false)
  }

  /** network_http_request_fail: never with a successful result. */
  function Fail(q: Request, result: Outcome): Request {
    Finished(q, Failed, if result == Success then ProtocolError else result)
  }

  lemma FailOk(q: Request, result: Outcome)
    requires Core(q) && q.requestSent <= q.requestLength <= REQUEST_CAPACITY
    ensures RequestOk(Fail(q, result)) && Terminal(Fail(q, result).state) && Follows(q, Fail(q, result))
  {
    hide VisitedOk, Parses;
  }

  // --------------------------------------------------------------------------------------
  // The steps that start something

  /** network_http_begin_connect. */
  function BeginConnect(q: Request, e: Environment): Request {
    if !e.timeoutsSet then Fail(q, ConnectionFailed)
    else
      var c := q.(requestLength := 0, requestSent := 0, chunk := 0, bodyOffset := 0, bodyLength := 0,
                  tcpActive := true, dnsStarted := false, state := Connecting);
      AfterStep(c, e.connect)
  }

  /** network_http_begin_resolution, for a URL that `parses`. */
  function BeginResolution(q: Request, e: Environment, parses: bool): Request {
    if !parses then Fail(q, InvalidArgument)
    else
      var r := q.(dnsStarted := false, status := 0, tcpActive := false, state := Resolving);
      if e.literalAddress then BeginConnect(r, e)
      else if !e.queryStarts then Fail(r, DnsFailed)
      else r.(dnsStarted := true)
  }

  /** network_http_begin_send: the request is built once; then its next piece, or on to the
      response. */
  function BeginSend(q: Request, e: Environment): Request
    requires |q.url| >= 7
  {
    if q.requestLength != 0 then NextPiece(q, e)
    else
      match RequestText(q.url)
      case Built(text) => NextPiece(q.(requestLength := |text|), e)
      case _ => Fail(q, InvalidArgument)
  }

  /** The text of the request for a URL. */
  function RequestText(url: seq<byte>): Get
    requires |url| >= 7
  {
    Build(HostOf(url), PathOf(url), REQUEST_CAPACITY)
  }

  /** The text of every URL that parses fits, and the only URLs without one are those with a byte
      from 127 up. */
  lemma TextFits(url: seq<byte>)
    requires Parses(url)
    ensures |url| >= 7
    ensures RequestText(url) == if exists i :: 0 <= i < |HostOf(url)| && HostOf(url)[i] >= 127 then BadHost
                                else if exists i :: 0 <= i < |PathOf(url)| && PathOf(url)[i] >= 127 then BadPath
                                else Built(GetText(HostOf(url), PathOf(url)))
  {
    hide GetText;
    FieldsLength();
    HostBytes(url);
    PathIsVisible(url);
  }

  lemma HostBytes(url: seq<byte>)
    requires Parses(url)
    ensures |url| >= 7
    ensures 0 < |HostOf(url)| < AUTHORITY_CAPACITY && forall i :: 0 <= i < |HostOf(url)| ==> HostOf(url)[i] > 32 && HostOf(url)[i] != SLASH
  {
    hide AllVisible, RequestPath;
    AuthorityIsLong(HostOf(url));
  }

  lemma PathIsVisible(url: seq<byte>)
    requires Parses(url)
    ensures |url| >= 7
    ensures 0 < |PathOf(url)| < CAPACITY && PathOf(url)[0] == SLASH && forall i :: 0 <= i < |PathOf(url)| ==> Visible(PathOf(url)[i])
  {
    hide AuthorityOk, HttpUrl;
    var p := PathAt(url, 7);
    var rest := url[p..];
    var r := rest[..FragmentAt(rest, 0)];
    assert forall i :: 0 <= i < |r| ==> Visible(r[i]);
    if r != [] { assert r[0] == url[p]; }
    SlashIsVisible();
  }

  function NextPiece(q: Request, e: Environment): Request {
    if q.requestSent >= q.requestLength then AfterStep(q.(closing := false, state := Receiving), e.wait)
    else AfterStep(q.(chunk := Piece(q), state := Sending), e.send)
  }

  /** A TCP step was begun; it may fail at once. */
  function AfterStep(q: Request, step: Step): Request {
    if step.StepFailed? then Fail(q, step.error) else q
  }

  predicate Running(q: Request) {
    !Terminal(q.state)
  }

  /** What no step changes. */
  ghost predicate SameRequest(q: Request, r: Request) {
    && r.handle == q.handle && r.bodyCapacity == q.bodyCapacity && r.follow == q.follow
    && r.startedAt == q.startedAt && r.timeout == q.timeout
  }

  /** A step that is no redirect: the same URL is fetched on. */
  ghost predicate Follows(q: Request, r: Request) {
    SameRequest(q, r) && r.visited == q.visited && r.redirects == q.redirects && r.url == q.url
  }

  /** A step that is one: one more URL. */
  ghost predicate GoesOn(q: Request, r: Request) {
    SameRequest(q, r) && q.follow && r.state.Redirecting? && r.visited == q.visited + [r.url] && r.redirects == q.redirects + 1
  }

  /** A given Location is followed, or the request stays with its URL. */
  ghost predicate Obeys(q: Request, location: Option<seq<byte>>, r: Request)
    requires |q.url| >= 7
  {
    Follows(q, r) || (GoesOn(q, r) && location.Some? && LeadsTo(q.url, location.value, r.url))
  }

  /** The response received in `e` is a redirect, and its Location leads from `url` to `next`. */
  ghost predicate SentOn(e: Environment, capacity: nat, url: seq<byte>, next: seq<byte>) {
    && HttpResponse.Parse(Taken(e, capacity)).Ok?
    && var h := HttpResponse.Parse(Taken(e, capacity)).value.head;
       HttpResponse.Redirects(h.code) && h.fields.location.Some? && |url| >= 7 && LeadsTo(url, h.fields.location.value, next)
  }

  /** What every call of the driver keeps: identity and history. The URL changes only by a redirect
      that was received, to where its Location leads. */
  ghost predicate Moves(q: Request, e: Environment, capacity: nat, r: Request) {
    Follows(q, r) || (GoesOn(q, r) && SentOn(e, capacity, q.url, r.url))
  }

  lemma AfterStepOk(q: Request, step: Step)
    requires RequestOk(q) && !q.state.Complete?
    ensures RequestOk(AfterStep(q, step)) && !AfterStep(q, step).state.Complete? && Follows(q, AfterStep(q, step))
  {
    hide VisitedOk, Parses;
    FailOk(q, if step.StepFailed? then step.error else ProtocolError);
  }

  lemma BeginConnectOk(q: Request, e: Environment)
    requires RequestOk(q) && Running(q)
    ensures RequestOk(BeginConnect(q, e)) && !BeginConnect(q, e).state.Complete? && Follows(q, BeginConnect(q, e))
  {
    hide VisitedOk, AfterStep, Parses;
    FailOk(q, ConnectionFailed);
    var c := q.(requestLength := 0, requestSent := 0, chunk := 0, bodyOffset := 0, bodyLength := 0,
                tcpActive := true, dnsStarted := false, state := Connecting);
    AfterStepOk(c, e.connect);
  }

  lemma BeginResolutionOk(q: Request, e: Environment, parses: bool)
    requires RequestOk(q) && Running(q)
    ensures var r := BeginResolution(q, e, parses); RequestOk(r) && !r.state.Complete? && Follows(q, r)
  {
    hide VisitedOk, BeginConnect, Parses;
    FailOk(q, InvalidArgument);
    var r := q.(dnsStarted := false, status := 0, tcpActive := false, state := Resolving);
    FailOk(r, DnsFailed);
    BeginConnectOk(r, e);
  }

  lemma NextPieceOk(q: Request, e: Environment)
    requires Core(q) && q.requestSent <= q.requestLength <= REQUEST_CAPACITY && (q.state.Connecting? || q.state.Sending?)
    ensures var r := NextPiece(q, e); RequestOk(r) && !r.state.Complete? && Follows(q, r)
  {
    hide VisitedOk, AfterStep, Parses;
    if q.requestSent >= q.requestLength {
      AfterStepOk(q.(closing := false, state := Receiving), e.wait);
    } else {
      AfterStepOk(q.(chunk := Piece(q), state := Sending), e.send);
    }
  }

  /** Sending never passes the end of the request, and every piece is a whole segment or the
      rest. */
  lemma BeginSendOk(q: Request, e: Environment)
    requires Core(q) && q.requestSent <= q.requestLength <= REQUEST_CAPACITY && (q.state.Connecting? || q.state.Sending?)
    ensures |q.url| >= 7
    ensures var r := BeginSend(q, e); RequestOk(r) && !r.state.Complete? && Follows(q, r)
  {
    hide VisitedOk, NextPiece, Parses, HostOf, PathOf, Build;
    FailOk(q, InvalidArgument);
    UrlIsLong(q);
    if q.requestLength != 0 {
      NextPieceOk(q, e);
    } else if RequestText(q.url).Built? {
      NextPieceOk(q.(requestLength := |RequestText(q.url).text|), e);
    }
  }

  // --------------------------------------------------------------------------------------
  // One call of the driver

  /** The bytes the TCP client has put in the buffer. */
  function Taken(e: Environment, capacity: nat): (r: seq<byte>)
    ensures |r| <= capacity
  {
    if |e.received| <= capacity then e.received else e.received[..capacity]
  }

  /** network_http_request_timed_out; a clock that runs backwards counts as time out. */
  predicate TimedOut(q: Request, e: Environment) {
    e.now < q.startedAt || e.now - q.startedAt >= q.timeout
  }

  /** The redirect part of network_http_parse_completed_response: the limit, the target, and no
      URL twice. */
  ghost function RedirectTo(q: Request, location: Option<seq<byte>>): Request
    requires |q.url| >= 7
  {
    if q.redirects >= REDIRECT_LIMIT || location.None? || location.value == [] then Fail(q, ProtocolError)
    else if |location.value| >= CAPACITY then Fail(q, ResponseTooLarge)
    else
      match Resolve(HostOf(q.url), PathOf(q.url), location.value)
      case Refused => Fail(q, ProtocolError)
      case Unsupported => Fail(q, UnsupportedFeature)
      case Url(url) => if url in q.visited then Fail(q, ProtocolError) else Onward(q, url)
  }

  function Onward(q: Request, url: seq<byte>): Request {
    q.(url := url, visited := q.visited + [url], redirects := q.redirects + 1,
       state := Redirecting, result := Success, dnsStarted := false, tcpActive := false)
  }

  /** network_http_parse_completed_response. */
  ghost function Parsed(q: Request, e: Environment, capacity: nat): Request
    requires |q.url| >= 7
  {
    match HttpResponse.Parse(Taken(e, capacity))
    case Err(_) => Fail(q, e.parseError)
    case Ok(r) =>
      var s := q.(status := r.head.code);
      if q.follow && HttpResponse.Redirects(r.head.code) then RedirectTo(s, r.head.fields.location)
      else if |r.body| > q.bodyCapacity then Fail(s, ResponseTooLarge)
      else Completed(s, r.head.bodyStart, |r.body|)
  }

  function Completed(q: Request, offset: nat, length: nat): Request {
    Finished(q.(bodyOffset := offset, bodyLength := length), Complete, Success)
  }

  /** The receiving state: the peer closes, then this side, then the response is read. */
  ghost function Received(q: Request, e: Environment, capacity: nat): Request
    requires |q.url| >= 7
  {
    match e.service
    case StepPending => q
    case StepFailed(error) => Fail(q, error)
    case StepComplete =>
      if q.closing then Parsed(q, e, capacity)
      else
        var c := q.(closing := true);
        match e.close
        case StepPending => c
        case StepFailed(error) => Fail(c, error)
        case StepComplete => Parsed(c, e, capacity)
  }

  function Resolved(q: Request, e: Environment): Request {
    match e.dns
    case DnsPending => q
    case DnsResolved => BeginConnect(q, e)
    case DnsNotFound => Fail(q, DnsFailed)
    case DnsTimedOut => Fail(q, Timeout)
  }

  /** The connection is up, or another piece of the request is out. */
  function Serviced(q: Request, e: Environment): Request
    requires |q.url| >= 7
  {
    match e.service
    case StepPending => q
    case StepFailed(error) => Fail(q, error)
    case StepComplete => BeginSend(if q.state.Connecting? then q else Sent(q), e)
  }

  function Sent(q: Request): Request {
    q.(requestSent := q.requestSent + q.chunk, chunk := 0)
  }

  /** network_http_request_drive on the state of the request. */
  ghost function Driven(q: Request, e: Environment, capacity: nat): Request
    requires |q.url| >= 7
  {
    if Terminal(q.state) then q
    else if TimedOut(q, e) then Fail(q, Timeout)
    else if !e.ready then Fail(q, NotReady)
    else if !e.linkUp then Fail(q, LinkDown)
    else
      match q.state
      case Configuring =>
        if e.configured then BeginResolution(q, e, Parses(q.url))
        else if e.dhcpStarts then q else Fail(q, IoError)
      case Redirecting => BeginResolution(q, e, Parses(q.url))
      case Resolving => Resolved(q, e)
      case Connecting => Serviced(q, e)
      case Sending => Serviced(q, e)
      case Receiving => Received(q, e, capacity)
      case _ => q
  }

  // --------------------------------------------------------------------------------------
  // What every step keeps

  lemma UrlIsLong(q: Request)
    requires Core(q)
    ensures |q.visited| == q.redirects + 1 <= VISITED_CAPACITY && |q.url| >= 7
  {
    hide NormalUrl, Parses;
    NormalHasScheme(q.url);
  }

  lemma TargetIsNormal(host: seq<byte>, path: seq<byte>, location: seq<byte>)
    ensures var t := Resolve(host, path, location); t.Url? ==> NormalUrl(t.url) && Parses(t.url)
  {
    hide Normalized, Parses, Absolute, Secure, HttpUrl, HasScheme;
    var r := location[..FragmentAt(location, 0)];
    if Resolve(host, path, location).Url? {
      NormalizeIsIdempotent(Absolute(host, path, r));
      ParsedIsShort(Resolve(host, path, location).url);
    }
  }

  lemma FetchedIsNormal(q: Request)
    requires Core(q)
    ensures NormalUrl(q.url) && HASH !in q.url
  {
    hide NormalUrl, Parses;
  }

  lemma OnwardOk(q: Request, url: seq<byte>)
    requires RequestOk(q) && q.redirects < REDIRECT_LIMIT && url !in q.visited && NormalUrl(url) && Parses(url) && HASH !in url
    requires q.follow
    ensures RequestOk(Onward(q, url)) && GoesOn(q, Onward(q, url))
  {
    hide VisitedOk, NormalUrl, Parses;
    VisitedMore(q.visited, q.redirects, url);
  }

  lemma BaseResolves(url: seq<byte>, location: seq<byte>)
    requires NormalUrl(url) && HASH !in url
    ensures |url| >= 7
    ensures var t := Resolve(HostOf(url), PathOf(url), location); t.Url? ==> LeadsTo(url, location, t.url) && HASH !in t.url
  {
    hide Normalized, Resolve, HostOf, PathOf, LeadsTo;
    TargetIsRfc(url, location);
  }

  lemma RedirectToOk(q: Request, location: Option<seq<byte>>)
    requires RequestOk(q) && q.follow && q.state.Receiving?
    ensures |q.url| >= 7
    ensures var r := RedirectTo(q, location); RequestOk(r) && Obeys(q, location, r) && (r.state.Failed? || r.state.Redirecting?)
  {
    hide RequestOk, Resolve, PathOf, HostOf, NormalUrl, Parses, Follows, GoesOn, LeadsTo;
    StillOk(q);
    UrlIsLong(q);
    FailOk(q, ProtocolError);
    FailOk(q, ResponseTooLarge);
    FailOk(q, UnsupportedFeature);
    if q.redirects < REDIRECT_LIMIT && location.Some? {
      var t := Resolve(HostOf(q.url), PathOf(q.url), location.value);
      TargetIsNormal(HostOf(q.url), PathOf(q.url), location.value);
      FetchedIsNormal(q);
      BaseResolves(q.url, location.value);
      if t.Url? && t.url !in q.visited {
        OnwardOk(q, t.url);
      }
    }
  }

  lemma StillOk(q: Request)
    requires RequestOk(q)
    ensures Core(q) && q.requestSent <= q.requestLength <= REQUEST_CAPACITY && |q.url| >= 7
  {
    hide VisitedOk, Parses;
    UrlIsLong(q);
  }

  lemma CompletedOk(q: Request, offset: nat, length: nat)
    requires RequestOk(q) && length <= q.bodyCapacity
    ensures RequestOk(Completed(q, offset, length)) && Follows(q, Completed(q, offset, length))
  {
    hide VisitedOk, Parses;
  }

  lemma ParsedOk(q: Request, e: Environment, capacity: nat)
    requires RequestOk(q) && q.state.Receiving?
    ensures |q.url| >= 7
    ensures var r := Parsed(q, e, capacity); RequestOk(r) && Moves(q, e, capacity, r)
  {
    hide RequestOk, HttpResponse.Parse, HttpResponse.Redirects, RedirectTo, LeadsTo;
    StillOk(q);
    UrlIsLong(q);
    FailOk(q, e.parseError);
    if HttpResponse.Parse(Taken(e, capacity)).Ok? {
      var r := HttpResponse.Parse(Taken(e, capacity)).value;
      var s := q.(status := r.head.code);
      StatusOk(q, r.head.code);
      StillOk(s);
      FailOk(s, ResponseTooLarge);
      if s.follow { RedirectToOk(s, r.head.fields.location); }
      if |r.body| <= s.bodyCapacity { CompletedOk(s, r.head.bodyStart, |r.body|); }
    }
  }

  lemma ReceivedOk(q: Request, e: Environment, capacity: nat)
    requires RequestOk(q) && q.state.Receiving?
    ensures |q.url| >= 7
    ensures var r := Received(q, e, capacity); RequestOk(r) && Moves(q, e, capacity, r)
  {
    hide VisitedOk, Parses, Parsed, SentOn;
    var c := q.(closing := true);
    FailOk(q, if e.service.StepFailed? then e.service.error else Timeout);
    FailOk(c, if e.close.StepFailed? then e.close.error else Timeout);
    ParsedOk(q, e, capacity);
    ParsedOk(c, e, capacity);
  }

  lemma ServicedOk(q: Request, e: Environment)
    requires RequestOk(q) && (q.state.Connecting? || q.state.Sending?)
    ensures |q.url| >= 7
    ensures var r := Serviced(q, e); RequestOk(r) && Follows(q, r) && !r.state.Complete?
  {
    hide VisitedOk, Parses, BeginSend;
    FailOk(q, if e.service.StepFailed? then e.service.error else Timeout);
    BeginSendOk(if q.state.Connecting? then q else Sent(q), e);
  }

  lemma ResolvedOk(q: Request, e: Environment)
    requires RequestOk(q) && q.state.Resolving?
    ensures var r := Resolved(q, e); RequestOk(r) && Follows(q, r) && !r.state.Complete?
  {
    hide VisitedOk, Parses, BeginConnect;
    FailOk(q, DnsFailed);
    FailOk(q, Timeout);
    BeginConnectOk(q, e);
  }

  /** Whatever the environment answers, a call of the driver keeps the request well formed, its
      identity and its history. */
  lemma DrivenOk(q: Request, e: Environment, capacity: nat)
    requires RequestOk(q)
    ensures |q.url| >= 7
    ensures var r := Driven(q, e, capacity); RequestOk(r) && Moves(q, e, capacity, r)
  {
    hide RequestOk, VisitedOk, Parses, BeginResolution, Resolved, Serviced, Received, SentOn;
    StillOk(q);
    UrlIsLong(q);
    FailOk(q, Timeout);
    FailOk(q, NotReady);
    FailOk(q, LinkDown);
    FailOk(q, IoError);
    if !Terminal(q.state) { BeginResolutionOk(q, e, Parses(q.url)); }
    if q.state.Resolving? { ResolvedOk(q, e); }
    if q.state.Connecting? || q.state.Sending? { ServicedOk(q, e); }
    if q.state.Receiving? { ReceivedOk(q, e, capacity); }
  }

  // --------------------------------------------------------------------------------------
  // Whole runs

  /** The request after a run of driver calls. */
  ghost function Run(q: Request, es: seq<Environment>, capacity: nat): Request
    requires RequestOk(q)
    decreases |es|
  {
    if es == [] then q
    else
      DrivenOk(q, es[0], capacity);
      Run(Driven(q, es[0], capacity), es[1..], capacity)
  }

  /** Over any run the request keeps its identity and its history, never follows more than five
      redirects and never fetches a URL twice. */
  lemma {:induction false} RunOk(q: Request, es: seq<Environment>, capacity: nat)
    requires RequestOk(q)
    ensures var r := Run(q, es, capacity);
            && RequestOk(r) && r.handle == q.handle && r.bodyCapacity == q.bodyCapacity && r.follow == q.follow
            && r.startedAt == q.startedAt && r.timeout == q.timeout && q.visited <= r.visited
    decreases |es|
  {
    hide RequestOk, Driven, SentOn;
    if es != [] {
      DrivenOk(q, es[0], capacity);
      RunOk(Driven(q, es[0], capacity), es[1..], capacity);
    }
  }

  /** A finished request does not move again. */
  lemma {:induction false} FinishedStays(q: Request, es: seq<Environment>, capacity: nat)
    requires RequestOk(q) && Terminal(q.state)
    ensures Run(q, es, capacity) == q
    decreases |es|
  {
    hide RequestOk;
    if es != [] {
      DrivenOk(q, es[0], capacity);
      FinishedStays(q, es[1..], capacity);
    }
  }

  /** Every request ends: one call at or after its time out is enough. */
  lemma {:induction false} RunEnds(q: Request, es: seq<Environment>, i: nat, capacity: nat)
    requires RequestOk(q) && i < |es| && TimedOut(q, es[i])
    ensures Terminal(Run(q, es, capacity).state)
    decreases |es|
  {
    hide RequestOk;
    DrivenOk(q, es[0], capacity);
    var r := Driven(q, es[0], capacity);
    if Terminal(r.state) {
      FinishedStays(r, es[1..], capacity);
    } else {
      RunEnds(r, es[1..], i - 1, capacity);
    }
  }

  ghost predicate DecodedAt(q: Request, e: Environment, capacity: nat) {
    && HttpResponse.Parse(Taken(e, capacity)).Ok?
    && var r := HttpResponse.Parse(Taken(e, capacity)).value;
       && q.bodyOffset == r.head.bodyStart && q.bodyLength == |r.body| && q.status == r.head.code
       && !(q.follow && HttpResponse.Redirects(r.head.code))
  }

  lemma ParsedIsDecoded(q: Request, e: Environment, capacity: nat)
    requires RequestOk(q) && q.state.Receiving?
    ensures |q.url| >= 7
    ensures Parsed(q, e, capacity).state.Complete? ==> DecodedAt(Parsed(q, e, capacity), e, capacity)
  {
    hide RequestOk, HttpResponse.Parse, HttpResponse.Redirects, RedirectTo;
    StillOk(q);
    UrlIsLong(q);
    if HttpResponse.Parse(Taken(e, capacity)).Ok? && q.follow {
      var h := HttpResponse.Parse(Taken(e, capacity)).value.head;
      StatusOk(q, h.code);
      RedirectToOk(q.(status := h.code), h.fields.location);
    }
  }

  lemma StatusOk(q: Request, code: nat)
    requires RequestOk(q)
    ensures RequestOk(q.(status := code)) && RequestOk(q.(closing := true))
  {
    hide VisitedOk, Parses;
  }

  lemma ReceivedIsDecoded(q: Request, e: Environment, capacity: nat)
    requires RequestOk(q) && q.state.Receiving?
    ensures |q.url| >= 7
    ensures Received(q, e, capacity).state.Complete? ==> DecodedAt(Received(q, e, capacity), e, capacity)
  {
    hide RequestOk, Parsed, DecodedAt, HttpResponse.Parse;
    StillOk(q);
    StatusOk(q, 0);
    ParsedIsDecoded(q, e, capacity);
    ParsedIsDecoded(q.(closing := true), e, capacity);
  }

  lemma CompleteIsDecoded(q: Request, e: Environment, capacity: nat)
    requires RequestOk(q) && Running(q)
    ensures |q.url| >= 7
    ensures Driven(q, e, capacity).state.Complete? ==> DecodedAt(Driven(q, e, capacity), e, capacity)
  {
    hide RequestOk, Parses, Received, BeginResolution, Resolved, Serviced, DecodedAt, Follows, Moves;
    StillOk(q);
    BeginResolutionOk(q, e, Parses(q.url));
    if q.state.Resolving? { ResolvedOk(q, e); }
    if q.state.Connecting? || q.state.Sending? { ServicedOk(q, e); }
    if q.state.Receiving? { ReceivedIsDecoded(q, e, capacity); }
  }

  /** A request completes only with a response that was received and parsed, and that is not a
      redirect it should have followed. */
  lemma {:induction false} CompletedWasReceived(q: Request, es: seq<Environment>, capacity: nat) returns (i: nat)
    requires RequestOk(q) && Running(q) && Run(q, es, capacity).state.Complete?
    ensures i < |es| && DecodedAt(Run(q, es, capacity), es[i], capacity)
    decreases |es|
  {
    hide RequestOk, Driven, DecodedAt;
    DrivenOk(q, es[0], capacity);
    CompleteIsDecoded(q, es[0], capacity);
    var r := Driven(q, es[0], capacity);
    if Terminal(r.state) {
      FinishedStays(r, es[1..], capacity);
      i := 0;
    } else {
      i := CompletedWasReceived(r, es[1..], capacity);
      i := i + 1;
    }
  }

  // --------------------------------------------------------------------------------------
  // Where redirects lead

  /** Over any run, each URL but the first was fetched because of a redirect that was received for
      the one before, in some call `j`, and is where the Location of that response leads: for a
      relative reference the target of section 5.2.2 of RFC 3986. */
  lemma {:induction false} RunFollows(q: Request, es: seq<Environment>, capacity: nat, i: nat) returns (j: nat)
    requires RequestOk(q) && |q.visited| <= i < |Run(q, es, capacity).visited|
    ensures i > 0 && j < |es|
    ensures var v := Run(q, es, capacity).visited;
            && SentOn(es[j], capacity, v[i - 1], v[i])
            && Run(q, es[..j], capacity).visited == v[..i] && Run(q, es[..j + 1], capacity).visited == v[..i + 1]
    decreases |es|
  {
    hide RequestOk, Driven, SentOn;
    DrivenOk(q, es[0], capacity);
    var r := Driven(q, es[0], capacity);
    LastVisited(q);
    LastVisited(r);
    RunOk(r, es[1..], capacity);
    var v := Run(r, es[1..], capacity).visited;
    assert v[..|r.visited|] == r.visited;
    if i < |r.visited| {
      j := 0;
      assert es[..1] == [es[0]] && es[..1][1..] == [];
      assert v[..i] == r.visited[..i] == q.visited;
    } else {
      var k := RunFollows(r, es[1..], capacity, i);
      j := k + 1;
      assert es[..j][1..] == es[1..][..k] && es[..j + 1][1..] == es[1..][..k + 1];
      assert es[..j][0] == es[0] && es[..j + 1][0] == es[0];
    }
  }

  lemma LastVisited(q: Request)
    requires RequestOk(q)
    ensures |q.visited| == q.redirects + 1 && q.visited[|q.visited| - 1] == q.url
  {
    hide NormalUrl, Parses;
  }

  // --------------------------------------------------------------------------------------
  // Requests without a text

  predicate HasText(url: seq<byte>) {
    |url| >= 7 && RequestText(url).Built?
  }

  predicate Ascii(c: byte) {
    c < 127
  }

  function Asciis(): set<byte> {
    set c: byte | Ascii(c)
  }

  lemma TextIff(url: seq<byte>)
    requires Parses(url)
    ensures |url| >= 7
    ensures HasText(url) <==> Within(HostOf(url), Asciis()) && Within(PathOf(url), Asciis())
  {
    hide Parses, HostOf, PathOf, GetText, Build;
    TextFits(url);
  }

  /** A redirect from a URL with a text, by a Location of a response, leads to one with a text. */
  lemma TargetHasText(url: seq<byte>, location: seq<byte>)
    requires Parses(url) && HasText(url) && forall k :: 0 <= k < |location| ==> location[k] < 127
    ensures var t := Resolve(HostOf(url), PathOf(url), location); t.Url? ==> HasText(t.url)
  {
    hide Parses, HostOf, PathOf, Absolute, Normalized, HasText, Secure, HasScheme, HttpUrl;
    TextIff(url);
    var t := Resolve(HostOf(url), PathOf(url), location);
    if t.Url? {
      var ref := location[..FragmentAt(location, 0)];
      assert Within(ref, Asciis());
      AbsoluteWithin(HostOf(url), PathOf(url), ref, Asciis());
      NormalWithin(Absolute(HostOf(url), PathOf(url), ref), Asciis());
      TextIff(t.url);
      PartsWithin(t.url, Asciis());
    }
  }

  /** A request that has sent something, or has followed a redirect. */
  predicate Beyond(q: Request) {
    q.redirects > 0 || q.state.Sending? || q.state.Receiving? || q.state.Redirecting? || q.state.Complete?
  }

  ghost predicate AllTexts(visited: seq<seq<byte>>) {
    forall i :: 0 <= i < |visited| ==> HasText(visited[i])
  }

  ghost predicate Texted(q: Request) {
    Beyond(q) ==> AllTexts(q.visited)
  }

  lemma FailTexted(q: Request, result: Outcome)
    requires Texted(q)
    ensures Texted(Fail(q, result))
  {
    hide AllTexts;
  }

  lemma AfterStepTexted(q: Request, step: Step)
    requires Texted(q)
    ensures Texted(AfterStep(q, step))
  {
    hide AllTexts;
  }

  lemma ConnectTexted(q: Request, e: Environment)
    requires Texted(q)
    ensures Texted(BeginConnect(q, e))
  {
    hide AllTexts;
  }

  lemma ResolutionTexted(q: Request, e: Environment, parses: bool)
    requires Texted(q)
    ensures Texted(BeginResolution(q, e, parses))
  {
    hide AllTexts, BeginConnect;
    ConnectTexted(q.(dnsStarted := false, status := 0, tcpActive := false, state := Resolving), e);
  }

  lemma ResolvedTexted(q: Request, e: Environment)
    requires Texted(q)
    ensures Texted(Resolved(q, e))
  {
    hide AllTexts, BeginConnect;
    ConnectTexted(q, e);
  }

  lemma OnlyUrl(q: Request)
    requires RequestOk(q) && q.redirects == 0
    ensures q.visited == [q.url]
  {
    hide Parses, NormalUrl;
  }

  lemma NextPieceTexted(q: Request, e: Environment)
    requires q.requestSent <= q.requestLength && AllTexts(q.visited)
    ensures Texted(NextPiece(q, e))
  {
    hide AllTexts, AfterStep;
    AfterStepTexted(q.(closing := false, state := Receiving), e.wait);
    AfterStepTexted(q.(chunk := Piece(q), state := Sending), e.send);
  }

  lemma ServicedTexted(q: Request, e: Environment)
    requires RequestOk(q) && Texted(q) && (q.state.Connecting? || q.state.Sending?)
    ensures |q.url| >= 7 && Texted(Serviced(q, e))
  {
    hide VisitedOk, Parses, AllTexts, NextPiece, RequestText, HasText;
    StillOk(q);
    if q.state.Sending? {
      NextPieceTexted(Sent(q), e);
    } else {
      if q.redirects == 0 { OnlyUrl(q); }
      if RequestText(q.url).Built? {
        FirstHasText(q);
        NextPieceTexted(q.(requestLength := |RequestText(q.url).text|), e);
      }
    }
  }

  lemma FirstHasText(q: Request)
    requires Texted(q) && |q.url| >= 7 && RequestText(q.url).Built? && (q.redirects == 0 ==> q.visited == [q.url])
    ensures AllTexts(q.visited)
  {
    hide RequestText;
  }

  lemma RedirectTexted(q: Request, location: Option<seq<byte>>)
    requires RequestOk(q) && AllTexts(q.visited)
    requires location.Some? ==> forall k :: 0 <= k < |location.value| ==> location.value[k] < 127
    ensures |q.url| >= 7 && AllTexts(RedirectTo(q, location).visited)
  {
    hide RequestOk, Resolve, HostOf, PathOf, HasText, Parses, VisitedOk;
    StillOk(q);
    LastVisited(q);
    if location.Some? { TargetHasText(q.url, location.value); }
  }

  lemma ParsedTexted(q: Request, e: Environment, capacity: nat)
    requires RequestOk(q) && AllTexts(q.visited)
    ensures |q.url| >= 7 && AllTexts(Parsed(q, e, capacity).visited)
  {
    hide RequestOk, HttpResponse.Parse, HttpResponse.Redirects, HttpResponse.ValidUri, RedirectTo, AllTexts;
    StillOk(q);
    if HttpResponse.Parse(Taken(e, capacity)).Ok? {
      var h := HttpResponse.Parse(Taken(e, capacity)).value.head;
      StatusOk(q, h.code);
      HttpResponse.RedirectTargetIsAscii(Taken(e, capacity));
      if HttpResponse.Redirects(h.code) { RedirectTexted(q.(status := h.code), h.fields.location); }
    }
  }

  lemma ReceivedTexted(q: Request, e: Environment, capacity: nat)
    requires RequestOk(q) && Texted(q) && q.state.Receiving?
    ensures |q.url| >= 7 && Texted(Received(q, e, capacity))
  {
    hide RequestOk, Texted, Parsed, Fail;
    var c := q.(closing := true);
    StillOk(q);
    StatusOk(q, 0);
    ClosingTexted(q);
    ParsedStays(q, e, capacity);
    ParsedStays(c, e, capacity);
    FailTexted(q, if e.service.StepFailed? then e.service.error else Timeout);
    FailTexted(c, if e.close.StepFailed? then e.close.error else Timeout);
  }

  lemma ClosingTexted(q: Request)
    requires Texted(q)
    ensures Texted(q.(closing := true))
  {
    hide AllTexts;
  }

  lemma ParsedStays(q: Request, e: Environment, capacity: nat)
    requires RequestOk(q) && Texted(q) && q.state.Receiving?
    ensures |q.url| >= 7 && Texted(Parsed(q, e, capacity))
  {
    hide RequestOk, AllTexts, Parsed;
    ParsedTexted(q, e, capacity);
  }

  lemma DrivenTexted(q: Request, e: Environment, capacity: nat)
    requires RequestOk(q) && Texted(q)
    ensures |q.url| >= 7 && Texted(Driven(q, e, capacity))
  {
    hide RequestOk, Texted, Parses, BeginResolution, Resolved, Serviced, Received, Fail;
    StillOk(q);
    FailTexted(q, Timeout);
    FailTexted(q, NotReady);
    FailTexted(q, LinkDown);
    FailTexted(q, IoError);
    ResolutionTexted(q, e, Parses(q.url));
    ResolvedTexted(q, e);
    if q.state.Connecting? || q.state.Sending? { ServicedTexted(q, e); }
    if q.state.Receiving? { ReceivedTexted(q, e, capacity); }
  }

  lemma {:induction false} RunTexted(q: Request, es: seq<Environment>, capacity: nat)
    requires RequestOk(q) && Texted(q)
    ensures Texted(Run(q, es, capacity))
    decreases |es|
  {
    hide RequestOk, Driven, Texted, Moves;
    if es != [] {
      DrivenOk(q, es[0], capacity);
      DrivenTexted(q, es[0], capacity);
      RunTexted(Driven(q, es[0], capacity), es[1..], capacity);
    }
  }

  /** Over any run of a new request only its first URL can lack a text: if that has one, so has
      every URL it is redirected to; if not, nothing is ever sent, nothing else is ever fetched, and
      the request does not complete. */
  lemma TextOrNothing(q: Request, es: seq<Environment>, capacity: nat)
    requires RequestOk(q) && q.state.Configuring? && q.redirects == 0
    ensures var r := Run(q, es, capacity);
            if HasText(q.url) then AllTexts(r.visited)
            else r.visited == [q.url] && !r.state.Sending? && !r.state.Receiving? && !r.state.Complete?
  {
    hide RequestOk, HasText, Run;
    RunTexted(q, es, capacity);
    RunOk(q, es, capacity);
    OnlyUrl(q);
    var r := Run(q, es, capacity);
    assert r.visited[0] == q.visited[0];
    if r.redirects == 0 { OnlyUrl(r); }
  }

  /** A URL that parses and has none: a host and a path with a byte of 128. */
  const TEXTLESS: seq<byte> := HTTP + [97, SLASH, 128]

  lemma TextlessUrl()
    ensures Parses(TEXTLESS) && RequestText(TEXTLESS) == BadPath && NormalUrl(TEXTLESS) && HASH !in TEXTLESS
  {
    hide Build, Normalized, RequestPath;
    TextlessParts();
    TextlessIsNormal();
    TextFits(TEXTLESS);
    assert PathOf(TEXTLESS)[1] == 128;
    assert forall i :: 0 <= i < |HostOf(TEXTLESS)| ==> HostOf(TEXTLESS)[i] == 97;
  }

  lemma TextlessParts()
    ensures Parses(TEXTLESS) && HostOf(TEXTLESS) == [97] && PathOf(TEXTLESS) == [SLASH, 128]
  {
    var url, path: seq<byte> := TEXTLESS, [SLASH, 128];
    assert url[..7] == HTTP;
    HttpPrefix(url);
    assert url[7] == 97 && url[8] == SLASH;
    assert PathAt(url, 8) == 8 && PathAt(url, 7) == 8;
    assert url[7..8] == [97] && url[8..] == path;
    assert HostOk([97]);
    assert HASH !in path;
    WholeFragment(path);
    assert path[..2] == path;
  }

  lemma TextlessIsNormal()
    ensures NormalUrl(TEXTLESS)
  {
    hide RemoveDotSegments, Normalized;
    var path: seq<byte> := [SLASH, 128];
    assert [SLASH] + [128] + [] == path;
    RulesOnSegment([128], [], []);
    assert [] + [SLASH] + [128] == path;
    assert TEXTLESS == HTTP + [97] + path + [];
    NormalOfParts([97], path, []);
  }

  /** The device, the stack and the server do their part, in time. */
  ghost predicate Serves(q: Request, e: Environment) {
    && !TimedOut(q, e) && e.ready && e.linkUp && e.configured && e.timeoutsSet
    && (e.literalAddress || e.queryStarts) && e.dns == DnsResolved
    && !e.connect.StepFailed? && !e.send.StepFailed? && !e.wait.StepFailed?
    && e.service == StepComplete && e.close == StepComplete
  }

  predicate Unsent(q: Request) {
    q.state.Configuring? || q.state.Resolving? || q.state.Connecting?
  }

  function StepsToSend(q: Request): nat {
    if q.state.Configuring? then 3 else if q.state.Resolving? then 2 else 1
  }

  predicate Refused(q: Request) {
    q.state.Failed? && q.result == InvalidArgument
  }

  lemma TextlessStep(q: Request, e: Environment, capacity: nat)
    requires RequestOk(q) && !HasText(q.url) && Serves(q, e) && Unsent(q)
    ensures |q.url| >= 7
    ensures var r := Driven(q, e, capacity);
            SameRequest(q, r) && r.url == q.url && (Refused(r) || (Unsent(r) && StepsToSend(r) < StepsToSend(q)))
  {
    hide VisitedOk, Parses, RequestText, Received, HttpResponse.Parse;
    StillOk(q);
  }

  /** When all else goes well such a request fails in its third call at the latest, as an invalid
      argument. */
  lemma {:induction false} TextlessFails(q: Request, es: seq<Environment>, capacity: nat)
    requires RequestOk(q) && !HasText(q.url) && Unsent(q) && StepsToSend(q) <= |es|
    requires forall i :: 0 <= i < |es| ==> Serves(q, es[i])
    ensures Refused(Run(q, es, capacity))
    decreases |es|
  {
    hide RequestOk, Driven, Moves, HasText;
    DrivenOk(q, es[0], capacity);
    TextlessStep(q, es[0], capacity);
    var r := Driven(q, es[0], capacity);
    if Refused(r) {
      FinishedStays(r, es[1..], capacity);
    } else {
      forall i | 0 <= i < |es[1..]| ensures Serves(r, es[1..][i]) {
        assert Serves(q, es[i + 1]);
      }
      TextlessFails(r, es[1..], capacity);
    }
  }

  // --------------------------------------------------------------------------------------
  // A request that nothing gets in the way of

  /** Everything does its part, and the response fits. */
  ghost predicate Cooperates(q: Request, e: Environment, capacity: nat) {
    && Serves(q, e) && HasText(q.url)
    && HttpResponse.Parse(Taken(e, capacity)).Ok?
    && var r := HttpResponse.Parse(Taken(e, capacity)).value;
       |r.body| <= q.bodyCapacity && !(q.follow && HttpResponse.Redirects(r.head.code))
  }

  /** The segments a text of `n` bytes takes. */
  function Segments(n: nat): nat {
    (n + MAX_SEGMENT - 1) / MAX_SEGMENT
  }

  /** How many more calls a request needs at most. */
  function CallsLeft(q: Request): nat
    requires q.requestSent <= q.requestLength
  {
    match q.state
    case Configuring => Segments(REQUEST_CAPACITY) + 4
    case Redirecting => Segments(REQUEST_CAPACITY) + 4
    case Resolving => Segments(REQUEST_CAPACITY) + 3
    case Connecting => Segments(REQUEST_CAPACITY) + 2
    case Sending => Segments(q.requestLength - q.requestSent) + 1
    case Receiving => 1
    case _ => 0
  }

  lemma SegmentsGrow(m: nat, n: nat)
    requires m <= n
    ensures Segments(m) <= Segments(n)
  {
  }

  /** Sending one piece leaves one segment less. */
  lemma PieceIsSegment(left: nat)
    requires left > 0
    ensures Segments(left - if left > MAX_SEGMENT then MAX_SEGMENT else left) + 1 == Segments(left)
  {
  }

  /** The fields a run that goes well depends on. */
  ghost predicate Closer(q: Request, r: Request) {
    && r.requestSent <= r.requestLength <= REQUEST_CAPACITY && r.url == q.url && q.requestSent <= q.requestLength
    && (r.state.Complete? || Running(r)) && CallsLeft(r) < CallsLeft(q)
  }

  lemma SendingCloser(q: Request, e: Environment, capacity: nat)
    requires RequestOk(q) && Cooperates(q, e, capacity)
    requires q.state.Connecting? || q.state.Sending?
    ensures Closer(q, Serviced(q, e))
  {
    hide VisitedOk, Parses, HttpResponse.Parse, HttpResponse.Redirects, Segments;
    if q.state.Connecting? {
      SegmentsGrow(|RequestText(q.url).text|, REQUEST_CAPACITY);
    } else {
      PieceIsSegment(q.requestLength - q.requestSent);
    }
  }

  lemma DrivenCloser(q: Request, e: Environment, capacity: nat)
    requires RequestOk(q) && Running(q) && Cooperates(q, e, capacity)
    ensures |q.url| >= 7
    ensures Closer(q, Driven(q, e, capacity))
  {
    hide VisitedOk, Parses, HttpResponse.Parse, HttpResponse.Redirects, Segments, Serviced, RedirectTo;
    UrlIsLong(q);
    if q.state.Connecting? || q.state.Sending? {
      SendingCloser(q, e, capacity);
    }
  }

  /** When nothing gets in the way, every request completes, after six calls at most. */
  lemma {:induction false} RunCompletes(q: Request, es: seq<Environment>, capacity: nat)
    requires RequestOk(q) && (Running(q) || q.state.Complete?)
    requires forall i :: 0 <= i < |es| ==> Cooperates(q, es[i], capacity)
    requires q.requestSent <= q.requestLength && CallsLeft(q) <= |es|
    ensures Run(q, es, capacity).state.Complete?
    decreases |es|
  {
    hide RequestOk, Driven, Segments, SentOn;
    if q.state.Complete? {
      FinishedStays(q, es, capacity);
    } else {
      DrivenOk(q, es[0], capacity);
      DrivenCloser(q, es[0], capacity);
      var r := Driven(q, es[0], capacity);
      assert forall i :: 0 <= i < |es[1..]| ==> Cooperates(q, es[1..][i], capacity);
      SameCooperation(q, r, es[1..], capacity);
      RunCompletes(r, es[1..], capacity);
    }
  }

  lemma SameCooperation(q: Request, r: Request, es: seq<Environment>, capacity: nat)
    requires SameRequest(q, r) && r.url == q.url && forall i :: 0 <= i < |es| ==> Cooperates(q, es[i], capacity)
    ensures forall i :: 0 <= i < |es| ==> Cooperates(r, es[i], capacity)
  {
  }
}
