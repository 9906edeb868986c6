/** kernel/network.c: the one asynchronous HTTP request, its buffer and the busy flag. */
module HttpRequest {
  import opened Bytes
  import opened Options
  import opened Buffers
  import opened UrlPath
  import opened UrlNormalize
  import opened UrlResolve
  import opened HttpSteps
  import HttpResponse

  class Requests {
    /** g_operation_busy, shared with the synchronous operations. */
    var busy: bool
    var nextHandle: u64
    var request: Option<Request>
    var response: array<byte>
    /** A synchronous operation is under way. */
    ghost var foreign: bool
    /** The decoded body of a complete request. */
    ghost var body: seq<byte>

    predicate Active()
      reads this
    {
      request.Some? && !Terminal(request.value.state)
    }

    ghost predicate Valid()
      reads this, response
    {
      && (busy <==> Active() || foreign) && !(Active() && foreign)
      && (request.Some? ==>
            && RequestOk(request.value)
            && response.Length == request.value.bodyCapacity + HttpResponse.RESPONSE_ALLOWANCE
            && (request.value.state.Complete? ==> BodyIn(request.value, response[..], body)))
    }

    constructor ()
      ensures Valid() && request.None? && !busy && fresh(response)
    {
      busy, nextHandle, request, foreign, body := false, 1, None, false, [];
      response := new byte[0];
    }

    /** The synchronous operations take the busy flag for their duration. */
    method BeginOperation() returns (ok: bool)
      requires Valid() && !foreign
      modifies this`busy, this`foreign
      ensures Valid() && ok == foreign && ok == !old(busy)
    {
      if busy { return false; }
      busy, foreign := true, true;
      return true;
    }

    method EndOperation()
      requires Valid() && foreign
      modifies this`busy, this`foreign
      ensures Valid() && !foreign && !busy
    {
      busy, foreign := false, false;
    }

    /** network_http_next_handle: never zero. */
    method NextHandle() returns (h: u64)
      modifies this`nextHandle
      ensures h != 0 && nextHandle != h && nextHandle != 0 && (old(nextHandle) != 0 ==> h == old(nextHandle))
    {
      if nextHandle == 0 { nextHandle := 1; }
      h := nextHandle;
      nextHandle := (nextHandle + 1) % 0x1_0000_0000_0000_0000;
      if nextHandle == 0 { nextHandle := 1; }
    }

    /** network_http_request_start; `memory` is whether the heap has the response buffer. */
    method Start(url: seq<byte>, bodyCapacity: nat, follow: bool, timeout: nat, ready: bool, linkUp: bool, memory: bool, now: u64)
      returns (r: Outcome, handle: u64)
      requires Valid()
      modifies this
      ensures Valid() && foreign == old(foreign)
      ensures r == Success <==>
                && 0 < bodyCapacity <= BODY_MAX && 0 < timeout <= TIMEOUT_MAX
                && Parses(url) && |url| >= 7 && !LacksRoom(url)
                && ready && linkUp && memory && !old(busy) && old(request).None?
      ensures r == StartOutcome(url, bodyCapacity, timeout, ready, linkUp, old(busy) || old(request).Some?, memory)
      ensures r == Success ==>
                && handle != 0 && busy && timeout <= TIMEOUT_MAX
                && var normal := Normalized(url[..FragmentAt(url, 0)]);
                   normal.Some? && request == Some(FreshRequest(handle, follow, now, timeout, bodyCapacity, normal.value))
      ensures r != Success ==> handle == 0 && request == old(request) && busy == old(busy)
    {
      hide Normalized, Parses, RequestOk, Secure, BodyIn, LacksRoom;
      handle := 0;
      if bodyCapacity == 0 || bodyCapacity > BODY_MAX || timeout == 0 || timeout > TIMEOUT_MAX { return InvalidArgument, 0; }
      SecureDoesNotParse(url);
      if Secure(url) { return UnsupportedFeature, 0; }
      var parses := ParseUrl(url);
      if !parses { return InvalidArgument, 0; }
      ParsedIsShort(url);
      RefusedForRoom(url);
      if !ready { return NotReady, 0; }
      if !linkUp { return LinkDown, 0; }
      if busy || request.Some? { return Busy, 0; }
      if !memory { return IoError, 0; }
      var end := FindFragment(url);
      var normal := Normalize(url[..end]);
      if normal.None? {
        var _ := NextHandle();
        return InvalidArgument, 0;
      }
      NormalizedIsNormal(url[..end]);
      NormalParses(url);
      assert HASH !in url[..end];
      HashFreeNormal(url[..end]);
      handle := NextHandle();
      var q := FreshRequest(handle, follow, now, timeout, bodyCapacity, normal.value);
      FreshOk(handle, follow, now, timeout, bodyCapacity, normal.value);
      response := new byte[bodyCapacity + HttpResponse.RESPONSE_ALLOWANCE];
      request, busy := Some(q), true;
      return Success, handle;
    }

    /** network_http_request_drive: one step, whatever the environment answers. */
    method Drive(e: Environment)
      requires Valid()
      modifies this`busy, this`request, this`body, response
      ensures Valid() && foreign == old(foreign)
      ensures !old(Active()) ==> request == old(request) && busy == old(busy) && body == old(body) && response[..] == old(response[..])
      ensures old(Active()) ==>
                |old(request).value.url| >= 7 && request == Some(Driven(old(request).value, e, response.Length))
      ensures old(Active()) && request.value.state.Complete? ==>
                HttpResponse.Parse(Taken(e, response.Length)).Ok? && body == HttpResponse.Parse(Taken(e, response.Length)).value.body
    {
      hide RequestOk, VisitedOk, HttpResponse.Parse, BodyIn, Parses, Received, BeginResolution, Resolved, Serviced;
      if !Active() { return; }
      var q := request.value;
      DrivenOk(q, e, response.Length);
      if TimedOut(q, e) { Settle(Fail(q, Timeout)); return; }
      if !e.ready { Settle(Fail(q, NotReady)); return; }
      if !e.linkUp { Settle(Fail(q, LinkDown)); return; }
      match q.state {
        case Configuring =>
          if !e.configured {
            if !e.dhcpStarts { Settle(Fail(q, IoError)); }
            return;
          }
          BeginToResolve(e);
        case Redirecting => BeginToResolve(e);
        case Resolving =>
          ResolvedOk(q, e);
          Settle(Resolved(q, e));
        case Connecting =>
          ServicedOk(q, e);
          Settle(Serviced(q, e));
        case Sending =>
          ServicedOk(q, e);
          Settle(Serviced(q, e));
        case Receiving => DriveReceiving(e);
      }
    }

    /** The request takes its next value, and the busy flag follows. */
    method Settle(q: Request)
      requires Valid() && Active() && RequestOk(q) && q.bodyCapacity == request.value.bodyCapacity && !q.state.Complete?
      modifies this`busy, this`request
      ensures Valid() && request == Some(q)
    {
      hide RequestOk;
      request := Some(q);
      if Terminal(q.state) { busy := false; }
    }

    method BeginToResolve(e: Environment)
      requires Valid() && Active()
      modifies this`busy, this`request
      ensures Valid() && request == Some(BeginResolution(old(request).value, e, Parses(old(request).value.url)))
      ensures !request.value.state.Complete?
    {
      hide RequestOk, Parses, BeginResolution;
      var q := request.value;
      var parses := ParseUrl(q.url);
      BeginResolutionOk(q, e, parses);
      Settle(BeginResolution(q, e, parses));
    }

    method DriveReceiving(e: Environment)
      requires Valid() && Active() && request.value.state.Receiving?
      modifies this`busy, this`request, this`body, response
      ensures Valid() && |old(request).value.url| >= 7
      ensures request == Some(Received(old(request).value, e, response.Length))
      ensures request.value.state.Complete? ==>
                HttpResponse.Parse(Taken(e, response.Length)).Ok? && body == HttpResponse.Parse(Taken(e, response.Length)).value.body
    {
      hide RequestOk, HttpResponse.Parse, BodyIn, Parsed;
      var q := request.value;
      ReceivedOk(q, e, response.Length);
      StatusOk(q, 0);
      StillOk(q);
      if e.service.StepFailed? {
        FailOk(q, e.service.error);
        Settle(Fail(q, e.service.error));
        return;
      }
      if !e.service.StepComplete? { return; }
      if !q.closing {
        Settle(q.(closing := true));
        if e.close.StepFailed? {
          Settle(Fail(q.(closing := true), e.close.error));
          return;
        }
        if !e.close.StepComplete? { return; }
      }
      ParseCompleted(e);
    }

    /** network_http_parse_completed_response: fail, follow one more redirect, or complete with
        exactly the decoded body. */
    method ParseCompleted(e: Environment)
      requires Valid() && Active() && request.value.state.Receiving?
      modifies this`busy, this`request, this`body, response
      ensures Valid() && |old(request).value.url| >= 7
      ensures request == Some(Parsed(old(request).value, e, response.Length))
      ensures request.value.state.Complete? ==>
                HttpResponse.Parse(Taken(e, response.Length)).Ok? && body == HttpResponse.Parse(Taken(e, response.Length)).value.body
    {
      hide RequestOk, HttpResponse.Parse, BodyIn, Overlay, RedirectTo;
      var q := request.value;
      ParsedOk(q, e, response.Length);
      var data := Taken(e, response.Length);
      Store(response, 0, data);
      assert response[..|data|] == response[0..|data|] == data;
      var head, length := HttpResponse.ParseResponse(response, |data|);
      if head.Err? {
        Settle(Fail(q, e.parseError));
        return;
      }
      StatusOk(q, head.value.code);
      var s := q.(status := head.value.code);
      if q.follow && HttpResponse.Redirects(head.value.code) {
        var next := Redirected(s, head.value.fields.location);
        Settle(next);
        return;
      }
      if head.value.bodyStart > response.Length || length > response.Length - head.value.bodyStart || length > q.bodyCapacity {
        Settle(Fail(s, ResponseTooLarge));
        return;
      }
      CompletedOk(s, head.value.bodyStart, length);
      var done := Completed(s, head.value.bodyStart, length);
      body := HttpResponse.Parse(data).value.body;
      DecodedInPlace(done, response[..], body);
      request, busy := Some(done), false;
    }

    /** network_http_request_read: exactly the asked-for part of the decoded body. */
    method Read(handle: u64, capacity: nat, offset: nat) returns (r: Outcome, data: seq<byte>)
      requires Valid()
      ensures r == Success <==> request.Some? && handle != 0 && request.value.handle == handle && request.value.state.Complete?
      ensures r == Success ==> data == if offset >= |body| then [] else body[offset..if capacity < |body| - offset then offset + capacity else |body|]
      ensures r != Success ==> data == []
      ensures request.None? || handle == 0 || request.value.handle != handle ==> r == InvalidArgument
      ensures request.Some? && handle != 0 && request.value.handle == handle && !request.value.state.Complete? ==>
                r == if request.value.state.Failed? then request.value.result else if request.value.state.Canceled? then WasCanceled else Busy
    {
      data := [];
      if handle == 0 || request.None? || request.value.handle != handle { return InvalidArgument, []; }
      var q := request.value;
      if !q.state.Complete? {
        if q.state.Failed? { return q.result, []; }
        if q.state.Canceled? { return WasCanceled, []; }
        return Busy, [];
      }
      BodyPiece(q, response[..], body);
      if capacity == 0 || offset >= q.bodyLength { return Success, []; }
      var copied := q.bodyLength - offset;
      if copied > capacity { copied := capacity; }
      data := response[q.bodyOffset + offset..q.bodyOffset + offset + copied];
      BodySlice(q, response[..], body, offset, copied);
      assert data == response[..][q.bodyOffset + offset..q.bodyOffset + offset + copied];
      return Success, data;
    }

    /** network_http_request_cancel: only its own handle, and only while it is active. */
    method Cancel(handle: u64) returns (r: Outcome)
      requires Valid()
      modifies this`busy, this`request
      ensures Valid()
      ensures r == Success <==> handle != 0 && old(request).Some? && old(request).value.handle == handle
      ensures r == Success && old(Active()) ==> request == Some(Finished(old(request).value, Canceled, WasCanceled)) && !busy
      ensures r != Success || !old(Active()) ==> request == old(request) && busy == old(busy)
    {
      hide VisitedOk, BodyIn;
      if handle == 0 || request.None? || request.value.handle != handle { return InvalidArgument; }
      if !Active() { return Success; }
      request, busy := Some(Finished(request.value, Canceled, WasCanceled)), false;
      return Success;
    }

    /** network_http_request_close: the request and its buffer go; an active one is canceled first. */
    method Close(handle: u64) returns (r: Outcome)
      requires Valid()
      modifies this`busy, this`request, this`response
      ensures Valid()
      ensures r == Success <==> handle != 0 && old(request).Some? && old(request).value.handle == handle
      ensures r == Success ==> request.None? && busy == foreign
      ensures r != Success ==> request == old(request) && busy == old(busy) && response == old(response)
    {
      hide RequestOk, BodyIn;
      if handle == 0 || request.None? || request.value.handle != handle { return InvalidArgument; }
      if Active() {
        var _ := Cancel(handle);
      }
      request := None;
      response := new byte[0];
      return Success;
    }
  }

  ghost predicate BodyIn(q: Request, buffer: seq<byte>, body: seq<byte>) {
    q.bodyLength == |body| && q.bodyOffset + q.bodyLength <= |buffer| && buffer[q.bodyOffset..q.bodyOffset + q.bodyLength] == body
  }

  lemma BodyPiece(q: Request, buffer: seq<byte>, body: seq<byte>)
    requires BodyIn(q, buffer, body)
    ensures q.bodyLength == |body| && q.bodyOffset + q.bodyLength <= |buffer|
  {
  }

  lemma BodySlice(q: Request, buffer: seq<byte>, body: seq<byte>, offset: nat, n: nat)
    requires BodyIn(q, buffer, body) && offset + n <= |body|
    ensures buffer[q.bodyOffset + offset..q.bodyOffset + offset + n] == body[offset..offset + n]
  {
    var x, y := buffer[q.bodyOffset + offset..q.bodyOffset + offset + n], body[offset..offset + n];
    forall i | 0 <= i < n ensures x[i] == y[i] {
      assert body[offset + i] == buffer[q.bodyOffset..q.bodyOffset + q.bodyLength][offset + i];
    }
  }

  lemma DecodedInPlace(q: Request, buffer: seq<byte>, body: seq<byte>)
    requires q.bodyLength == |body| && q.bodyOffset + |body| <= |buffer|
    requires exists was: seq<byte> :: |was| == |buffer| && buffer == Overlay(was, q.bodyOffset, body)
    ensures BodyIn(q, buffer, body)
  {
    var was: seq<byte> :| |was| == |buffer| && buffer == Overlay(was, q.bodyOffset, body);
  }

  /** What a start comes to, check by check. */
  ghost function StartOutcome(url: seq<byte>, bodyCapacity: nat, timeout: nat, ready: bool, linkUp: bool, taken: bool, memory: bool): Outcome {
    if bodyCapacity == 0 || bodyCapacity > BODY_MAX || timeout == 0 || timeout > TIMEOUT_MAX then InvalidArgument
    else if Secure(url) then UnsupportedFeature
    else if !Parses(url) then InvalidArgument
    else if !ready then NotReady
    else if !linkUp then LinkDown
    else if taken then Busy
    else if !memory then IoError
    else if |url| >= 7 && LacksRoom(url) then InvalidArgument
    else Success
  }

  function FreshRequest(handle: u64, follow: bool, now: u64, timeout: u32, bodyCapacity: nat, url: seq<byte>): Request {
    Request(handle, follow, now, timeout, Configuring, Success, false, bodyCapacity, 0, 0, 0, 0, 0, 0, 0, url, [url], false, false)
  }

  lemma FreshOk(handle: u64, follow: bool, now: u64, timeout: u32, bodyCapacity: nat, url: seq<byte>)
    requires handle != 0 && 0 < timeout <= TIMEOUT_MAX && 0 < bodyCapacity <= BODY_MAX && NormalUrl(url) && Parses(url) && HASH !in url
    ensures RequestOk(FreshRequest(handle, follow, now, timeout, bodyCapacity, url))
  {
    hide NormalUrl, Parses;
  }

  lemma NormalizedIsNormal(url: seq<byte>)
    requires |url| < CAPACITY && Normalized(url).Some?
    ensures NormalUrl(Normalized(url).value)
  {
    hide Normalized;
    NormalizeIsIdempotent(url);
    NormalizedShape(url);
  }

  /** Such a request is started all the same, within any limits, for the URL as it is. */
  lemma TextlessStarts(bodyCapacity: nat, timeout: nat)
    requires 0 < bodyCapacity <= BODY_MAX && 0 < timeout <= TIMEOUT_MAX
    ensures StartOutcome(TEXTLESS, bodyCapacity, timeout, true, true, false, true) == Success
    ensures Normalized(TEXTLESS[..FragmentAt(TEXTLESS, 0)]) == Some(TEXTLESS) && !HasText(TEXTLESS)
  {
    hide Parses, Normalized, Secure, RequestText;
    TextlessUrl();
    SecureDoesNotParse(TEXTLESS);
    WholeFragment(TEXTLESS);
    assert TEXTLESS[..|TEXTLESS|] == TEXTLESS;
  }

  lemma SecureDoesNotParse(url: seq<byte>)
    ensures Parses(url) ==> !Secure(url)
  {
    hide AuthorityOk, RequestPath, AllVisible;
    if |url| > 4 {
      assert Text("http://")[4] == 58 && Text("https://")[4] == 115;
    }
  }

  /** The redirect part of network_http_parse_completed_response. There is room for every URL
      the redirect limit lets through, so the capacity test never fails. */
  method Redirected(q: Request, location: Option<seq<byte>>) returns (r: Request)
    requires RequestOk(q) && q.state.Receiving? && q.follow
    ensures |q.url| >= 7 && r == RedirectTo(q, location)
    ensures RequestOk(r) && Obeys(q, location, r) && (r.state.Failed? || r.state.Redirecting?)
  {
    hide NormalUrl, Parses, RequestOk, UrlResolve.Resolve, PathOf, HostOf, Normalized, Obeys;
    RedirectToOk(q, location);
    StillOk(q);
    if q.redirects >= REDIRECT_LIMIT { return Fail(q, ProtocolError); }
    if location.None? || location.value == [] { return Fail(q, ProtocolError); }
    if |location.value| >= CAPACITY { return Fail(q, ResponseTooLarge); }
    UrlIsLong(q);
    var target := ResolveRedirect(q.url, location.value);
    if target.Refused? { return Fail(q, ProtocolError); }
    if target.Unsupported? { return Fail(q, UnsupportedFeature); }
    var seen := WasVisited(q.visited, target.url);
    assert |q.visited| < VISITED_CAPACITY;
    if seen { return Fail(q, ProtocolError); }
    return Onward(q, target.url);
  }

  /** network_http_url_was_visited. */
  method WasVisited(visited: seq<seq<byte>>, url: seq<byte>) returns (seen: bool)
    ensures seen <==> url in visited
  {
    for i := 0 to |visited|
      invariant url !in visited[..i]
    {
      if visited[i] == url { return true; }
      assert visited[..i + 1] == visited[..i] + [visited[i]];
    }
    assert visited[..|visited|] == visited;
    return false;
  }
}
