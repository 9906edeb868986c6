/** kernel/app_network_services.c on top of kernel/network.c: the network calls of applications. */
module AppHttp {
  import opened Bytes
  import opened Options
  import opened UrlPath
  import opened UrlResolve
  import opened HttpSteps
  import opened HttpRequest
  import opened N = AppNetwork

  const TIMEOUT_MIN: nat := 100
  const TRANSFER_MAX: nat := 4096

  /** What a process asks for; no URL is one that could not be read from its memory. */
  datatype Arguments = Arguments(url: Option<seq<byte>>, capacity: nat, flags: u32, timeout: nat)

  predicate ArgumentsOk(a: Arguments) {
    && a.url.Some? && 0 < |a.url.value| < CAPACITY && 0 < a.capacity <= BODY_MAX
    && TIMEOUT_MIN <= a.timeout <= TIMEOUT_MAX && a.flags <= 1 && AllVisible(a.url.value)
  }

  /** start_error. */
  function StartError(r: Outcome): N.Status {
    match r
    case Busy => WouldBlock
    case InvalidArgument => InvalidArguments
    case UnsupportedFeature => N.Status.Unsupported
    case ResponseTooLarge => NoSpace
    case _ => IoFailure
  }

  datatype Device = Device(ready: bool, linkUp: bool, memory: bool, now: u64)

  datatype ReadReply = Bytes(data: seq<byte>) | ReadError(status: N.Status)

  class AppRequests {
    const requests: Requests
    var record: N.Record
    var capacity: nat
    var nextHandle: u64

    /** The record and the request are the same one, or there is neither; no cleanup ever waits. */
    ghost predicate Valid()
      reads this, requests, requests.response
    {
      && requests.Valid() && !record.cleanupPending
      && (if record.inUse then
            && record.process != 0 && 0 < record.appHandle <= HANDLE_MAX
            && requests.request.Some? && requests.request.value.handle == record.networkHandle != 0
            && requests.request.value.bodyCapacity == capacity
          else requests.request.None?)
    }

    predicate Owns(process: u64, handle: u64)
      reads this
    {
      record.inUse && process == record.process && handle == record.appHandle
    }

    constructor (r: Requests)
      requires r.Valid() && r.request.None?
      ensures Valid() && requests == r && record == NO_RECORD
    {
      requests, record, capacity, nextHandle := r, NO_RECORD, 0, 1;
    }

    /** retry_pending_cleanup: there is never anything to retry. */
    method RetryCleanup() returns (clean: bool)
      requires Valid()
      ensures clean
    {
      if !record.cleanupPending { return true; }
      assert false;
      return false;
    }

    /** retire_backend_request: cancel and close cannot fail, so nothing is kept for later. */
    method Retire()
      requires Valid() && record.inUse
      modifies this`record, this`capacity, requests
      ensures Valid() && record == NO_RECORD && requests.request.None? && requests.foreign == old(requests.foreign)
    {
      hide RequestOk, BodyIn;
      var handle := record.networkHandle;
      record := record.(inUse := false, cleanupPending := true, process := 0, appHandle := 0);
      var _ := requests.Cancel(handle);
      var closed := requests.Close(handle);
      assert closed == Success;
      record, capacity := NO_RECORD, 0;
    }

    method CheckUrl(url: seq<byte>) returns (ok: bool)
      ensures ok == AllVisible(url)
    {
      for i := 0 to |url|
        invariant forall k :: 0 <= k < i ==> Visible(url[k])
      {
        if url[i] <= 32 || url[i] == 127 { return false; }
      }
      return true;
    }

    /** dispatch_start: a handle exactly when the process may, nothing is taken, the arguments are
        within the limits and the request starts; any other call leaves everything as it was. */
    method Start(process: u64, capable: bool, arguments: Option<Arguments>, d: Device) returns (r: Reply)
      requires Valid() && process != 0
      modifies this, requests
      ensures Valid() && requests.foreign == old(requests.foreign)
      ensures r.Handle? <==>
                && capable && !old(record).inUse && arguments.Some? && ArgumentsOk(arguments.value)
                && StartOutcome(arguments.value.url.value, arguments.value.capacity, arguments.value.timeout, d.ready, d.linkUp,
                                old(requests.busy), d.memory) == Success
      ensures r.Handle? ==>
                && Owns(process, r.handle) && arguments.value.timeout <= TIMEOUT_MAX
                && var url := arguments.value.url.value;
                   var normal := Normalized(url[..FragmentAt(url, 0)]);
                   normal.Some? && requests.request == Some(FreshRequest(record.networkHandle, arguments.value.flags == 1, d.now,
                                                                         arguments.value.timeout, arguments.value.capacity, normal.value))
      ensures !r.Handle? ==> requests.request == old(requests.request) && record.inUse == old(record).inUse
                             && (record.inUse ==> record == old(record))
      ensures !r.Handle? ==>
                r == Error(if !capable then PermissionDenied
                           else if old(record).inUse then WouldBlock
                           else if arguments.None? || !ArgumentsOk(arguments.value) then InvalidArguments
                           else StartError(StartOutcome(arguments.value.url.value, arguments.value.capacity, arguments.value.timeout,
                                                        d.ready, d.linkUp, old(requests.busy), d.memory)))
    {
      hide RequestOk, BodyIn, StartOutcome, Normalized, Visible, Parses;
      if !capable { return Error(PermissionDenied); }
      var clean := RetryCleanup();
      if record.inUse { return Error(WouldBlock); }
      if arguments.None? { return Error(InvalidArguments); }
      var a := arguments.value;
      if a.url.None? || |a.url.value| == 0 || |a.url.value| >= CAPACITY || a.capacity == 0 || a.capacity > BODY_MAX
         || a.timeout < TIMEOUT_MIN || a.timeout > TIMEOUT_MAX || a.flags > 1 { return Error(InvalidArguments); }
      var visible := CheckUrl(a.url.value);
      if !visible { return Error(InvalidArguments); }
      record, capacity := NO_RECORD, a.capacity;
      var result, network := requests.Start(a.url.value, a.capacity, a.flags == 1, a.timeout, d.ready, d.linkUp, d.memory, d.now);
      if result != Success {
        // A start that fails leaves no handle behind.
        assert network == 0;
        record, capacity := NO_RECORD, 0;
        return Error(StartError(result));
      }
      assert network != 0;
      var handle;
      handle, nextHandle := TakeHandle(nextHandle);
      record := N.Record(true, false, process, handle, network);
      return Handle(handle);
    }

    /** dispatch_read: the owner of a complete request gets exactly the asked-for part of the
        decoded body; `writable` is whether its buffer is. */
    method Read(process: u64, capable: bool, handle: u64, requested: nat, offset: nat, writable: bool) returns (r: ReadReply)
      requires Valid()
      ensures var body := requests.body;
              r == if !capable then ReadError(PermissionDenied)
                   else if !Owns(process, handle) then ReadError(BadHandle)
                   else if requested > TRANSFER_MAX || offset > capacity || requested > capacity - offset then ReadError(InvalidArguments)
                   else if requested == 0 then Bytes([])
                   else if !writable then ReadError(InvalidArguments)
                   else if requests.Active() then ReadError(WouldBlock)
                   else if !requests.request.value.state.Complete? then
                     ReadError(if requests.request.value.result == Busy then WouldBlock
                               else if requests.request.value.result == InvalidArgument then InvalidArguments else IoFailure)
                   else if offset >= |body| then Bytes([])
                   else Bytes(body[offset..if requested < |body| - offset then offset + requested else |body|])
    {
      hide BodyIn, VisitedOk, Parses, SendingOk;
      if !capable { return ReadError(PermissionDenied); }
      if !record.inUse || process == 0 || handle == 0 || record.process != process || record.appHandle != handle {
        return ReadError(BadHandle);
      }
      if requested > TRANSFER_MAX || offset > capacity || requested > capacity - offset { return ReadError(InvalidArguments); }
      if requested == 0 { return Bytes([]); }
      if !writable { return ReadError(InvalidArguments); }
      var result, data := requests.Read(record.networkHandle, requested, offset);
      if result != Success {
        return ReadError(if result == Busy then WouldBlock else if result == InvalidArgument then InvalidArguments else IoFailure);
      }
      // Never more than was asked for.
      assert |data| <= requested;
      return Bytes(data);
    }

    /** dispatch_cancel: the owner's cancel cannot fail. */
    method Cancel(process: u64, capable: bool, handle: u64) returns (r: Reply)
      requires Valid()
      modifies requests`busy, requests`request
      ensures Valid()
      ensures r == if !capable then Error(PermissionDenied) else if !Owns(process, handle) then Error(BadHandle) else Done
      ensures r != Done ==> requests.request == old(requests.request)
      ensures r == Done ==> !requests.Active() && requests.busy == requests.foreign
    {
      hide RequestOk, BodyIn;
      if !capable { return Error(PermissionDenied); }
      if !record.inUse || process == 0 || handle == 0 || record.process != process || record.appHandle != handle {
        return Error(BadHandle);
      }
      var result := requests.Cancel(record.networkHandle);
      assert result == Success;
      return Done;
    }

    /** dispatch_close: the owner's close cannot fail. */
    method Close(process: u64, capable: bool, handle: u64) returns (r: Reply)
      requires Valid()
      modifies this`record, this`capacity, requests
      ensures Valid()
      ensures r == if !capable then Error(PermissionDenied) else if !old(Owns(process, handle)) then Error(BadHandle) else Done
      ensures r == Done ==> record == NO_RECORD && requests.request.None? && requests.busy == requests.foreign
      ensures r != Done ==> record == old(record) && requests.request == old(requests.request)
    {
      hide RequestOk, BodyIn;
      if !capable { return Error(PermissionDenied); }
      if !record.inUse || process == 0 || handle == 0 || record.process != process || record.appHandle != handle {
        return Error(BadHandle);
      }
      var result := requests.Close(record.networkHandle);
      assert result == Success;
      record, capacity := NO_RECORD, 0;
      return Done;
    }

    /** The network's own turn: what a process owns it still owns, and under the same handles. */
    method Drive(e: Environment)
      requires Valid()
      modifies requests`busy, requests`request, requests`body, requests.response
      ensures Valid()
    {
      hide RequestOk, BodyIn, Driven, HttpResponse.Parse;
      ghost var before := requests.request;
      if requests.Active() { DrivenOk(requests.request.value, e, requests.response.Length); }
      requests.Drive(e);
    }

    /** app_network_services_release_process: the request of a process that is gone is gone. */
    method ReleaseProcess(process: u64)
      requires Valid()
      modifies this`record, this`capacity, requests
      ensures Valid()
      ensures if old(record).inUse && old(record).process == process
              then record == NO_RECORD && requests.request.None? else record == old(record) && requests.request == old(requests.request)
    {
      if !record.inUse || process == 0 || record.process != process { return; }
      Retire();
    }
  }
}
