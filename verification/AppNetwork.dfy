/** kernel/app_network_services.c: the one network request that applications share. */
module AppNetwork {
  import opened Bytes
  import opened Options

  const HANDLE_MAX: nat := 0x7FFF_FFFF_FFFF_FFFF

  datatype Status = PermissionDenied | WouldBlock | BadHandle | InvalidArguments | Unsupported | NoSpace | IoFailure

  datatype Reply = Handle(handle: u64) | Done | Error(status: Status)

  datatype Record = Record(inUse: bool, cleanupPending: bool, process: u64, appHandle: u64, networkHandle: u64)

  const NO_RECORD := Record(false, false, 0, 0, 0)

  /** The request backend, which may fail in any way it likes. */
  class Backend {
    /** The handles it has given out and not closed. */
    var open: set<u64>
    /** How often it has failed. */
    ghost var faults: nat

    constructor ()
      ensures open == {}
    {
      open, faults := {}, 0;
    }

    /** A start may succeed or fail, and either way may leave a handle behind; 0 is none. */
    method Start() returns (ok: bool, handle: u64)
      modifies this
      ensures handle != 0 ==> handle !in old(open) && open == old(open) + {handle}
      ensures handle == 0 ==> open == old(open)
      ensures faults == old(faults) + if ok && handle != 0 then 0 else 1
    {
      ok, handle := *, *;
      if handle in open { handle := 0; }
      if !ok || handle == 0 { faults := faults + 1; }
      if handle != 0 { open := open + {handle}; }
    }

    method Cancel(handle: u64) returns (ok: bool)
      modifies this`faults
      ensures faults == old(faults) + if ok then 0 else 1
    {
      ok := *;
      if !ok { faults := faults + 1; }
    }

    /** Only a successful close gives a handle back. */
    method Close(handle: u64) returns (ok: bool)
      modifies this
      ensures open == if ok then old(open) - {handle} else old(open)
      ensures faults == old(faults) + if ok then 0 else 1
    {
      ok := *;
      if ok { open := open - {handle}; } else { faults := faults + 1; }
    }
  }

  class Services {
    const backend: Backend
    var record: Record
    var nextHandle: u64

    /** Every open backend handle is in the record, which is either owned by a process or waits to
        be cleaned up and is nobody's. */
    ghost predicate Valid()
      reads this, backend
    {
      && !(record.inUse && record.cleanupPending)
      && backend.open == (if record.inUse || record.cleanupPending then {record.networkHandle} else {})
      && (record.inUse ==> record.process != 0 && 0 < record.appHandle <= HANDLE_MAX && record.networkHandle != 0)
      && (record.cleanupPending ==> record.process == 0 && record.appHandle == 0 && record.networkHandle != 0)
    }

    constructor (b: Backend)
      requires b.open == {}
      ensures Valid() && backend == b && record == NO_RECORD
    {
      backend, record, nextHandle := b, NO_RECORD, 1;
    }

    /** retry_pending_cleanup. */
    method RetryCleanup() returns (clean: bool)
      requires Valid()
      modifies this`record, backend
      ensures Valid() && clean == !record.cleanupPending
      ensures clean ==> record == if old(record).cleanupPending then NO_RECORD else old(record)
      ensures !clean ==> record == old(record) && backend.faults > old(backend.faults)
      ensures backend.faults >= old(backend.faults)
    {
      if !record.cleanupPending { return true; }
      var _ := backend.Cancel(record.networkHandle);
      var closed := backend.Close(record.networkHandle);
      if !closed { return false; }
      record := NO_RECORD;
      return true;
    }

    /** retire_backend_request: the process loses it at once, the backend when it can. */
    method Retire()
      requires !record.cleanupPending && record.networkHandle != 0 && backend.open == {record.networkHandle}
      modifies this`record, backend
      ensures Valid() && !record.inUse
      ensures record == NO_RECORD || (record == Record(false, true, 0, 0, old(record).networkHandle) && backend.faults > old(backend.faults))
      ensures backend.faults >= old(backend.faults)
    {
      var handle := record.networkHandle;
      record := record.(inUse := false, cleanupPending := true, process := 0, appHandle := 0);
      var _ := backend.Cancel(handle);
      var closed := backend.Close(handle);
      if closed { record := NO_RECORD; }
    }

    /** find_record: the backend handle, for the owner with its own handle and nobody else. */
    method Find(process: u64, handle: u64) returns (r: Option<u64>)
      requires Valid()
      ensures r.Some? <==> record.inUse && process == record.process && handle == record.appHandle
      ensures r.Some? ==> r.value == record.networkHandle && r.value in backend.open
    {
      if !record.inUse || process == 0 || handle == 0 || record.process != process || record.appHandle != handle { return None; }
      return Some(record.networkHandle);
    }

    /** dispatch_start; `argumentsOk` is whether the request could be read from the process and is
        within the limits. */
    method Start(process: u64, capable: bool, argumentsOk: bool) returns (r: Reply)
      requires Valid() && process != 0
      modifies this, backend
      ensures Valid()
      ensures r.Handle? ==> !old(record).inUse && record.inUse && record.process == process && record.appHandle == r.handle
                            && r.handle == if 0 < old(nextHandle) <= HANDLE_MAX then old(nextHandle) else 1
      ensures !r.Handle? ==> record.inUse == old(record).inUse
      ensures !capable ==> r == Error(PermissionDenied) && record == old(record)
      ensures capable && old(record).inUse ==> r == Error(WouldBlock) && record == old(record)
      ensures capable && !old(record).inUse && backend.faults == old(backend.faults) ==>
                if argumentsOk then r.Handle? else r == Error(InvalidArguments)
    {
      if !capable { return Error(PermissionDenied); }
      var clean := RetryCleanup();
      if !clean { return Error(WouldBlock); }
      if record.inUse { return Error(WouldBlock); }
      if !argumentsOk { return Error(InvalidArguments); }
      record := NO_RECORD;
      var ok, network := backend.Start();
      if !ok {
        if network != 0 {
          record := record.(networkHandle := network);
          Retire();
        }
        return Error(IoFailure);
      }
      if network == 0 { return Error(IoFailure); }
      var handle;
      handle, nextHandle := TakeHandle(nextHandle);
      record := Record(true, false, process, handle, network);
      return Handle(handle);
    }

    /** dispatch_cancel. */
    method Cancel(process: u64, capable: bool, handle: u64) returns (r: Reply)
      requires Valid()
      modifies backend`faults
      ensures Valid()
      ensures r == if !capable then Error(PermissionDenied)
                   else if !(record.inUse && process == record.process && handle == record.appHandle) then Error(BadHandle)
                   else if backend.faults == old(backend.faults) then Done else Error(IoFailure)
    {
      if !capable { return Error(PermissionDenied); }
      var network := Find(process, handle);
      if network.None? { return Error(BadHandle); }
      var ok := backend.Cancel(network.value);
      return if ok then Done else Error(IoFailure);
    }

    /** dispatch_close: the owner keeps the request until the backend has really closed it. */
    method Close(process: u64, capable: bool, handle: u64) returns (r: Reply)
      requires Valid()
      modifies this`record, backend
      ensures Valid()
      ensures r == if !capable then Error(PermissionDenied)
                   else if !(old(record).inUse && process == old(record).process && handle == old(record).appHandle) then Error(BadHandle)
                   else if backend.faults == old(backend.faults) then Done else Error(IoFailure)
      ensures r == Done ==> record == NO_RECORD && backend.open == {}
      ensures r != Done ==> record == old(record)
    {
      if !capable { return Error(PermissionDenied); }
      var network := Find(process, handle);
      if network.None? { return Error(BadHandle); }
      var closed := backend.Close(network.value);
      if !closed { return Error(IoFailure); }
      record := NO_RECORD;
      return Done;
    }

    /** app_network_services_release_process: after it the process owns nothing. */
    method ReleaseProcess(process: u64)
      requires Valid()
      modifies this`record, backend
      ensures Valid() && !(record.inUse && record.process == process)
      ensures !(old(record).inUse && old(record).process == process) ==> record == old(record)
      ensures old(record).inUse && old(record).process == process ==>
                record == NO_RECORD
                || (record == Record(false, true, 0, 0, old(record).networkHandle) && backend.faults > old(backend.faults))
    {
      if !record.inUse || process == 0 || record.process != process { return; }
      Retire();
    }
  }

  /** allocate_handle: positive, and not the one given out before. */
  method TakeHandle(next: u64) returns (h: u64, after: u64)
    ensures 0 < h <= HANDLE_MAX && after != h && 0 < after <= HANDLE_MAX
    ensures h == if 0 < next <= HANDLE_MAX then next else 1
  {
    h := next;
    if h == 0 || h > HANDLE_MAX { h := 1; }
    after := if h == HANDLE_MAX then 1 else h + 1;
  }
}
