/** The `request` wrapper around an in-flight non-blocking operation, the
    `status` record, and `waitall`.

    A request is either null (no operation) or pending (an operation the
    library still has to complete). `wait` blocks until completion; `test` asks
    whether the operation has completed, which the library answers as it likes.
    Both do nothing at all on a null request. Completing an operation makes the
    library write MPI_REQUEST_NULL back into the request (section 3.7.3 of the
    MPI-3.1 standard). Move assignment and copy assignment first wait for the
    target's own operation; copying is allowed only from a null request; the
    destructor waits. `waitall` completes a contiguous batch in one native call
    (section 3.7.5 of the MPI-3.1 standard).

    The library is modelled by an `Engine`: the operations still active, the
    number started so far, the order in which operations completed, and the log
    of native calls made on requests.
 */
module Requests {
  import opened Errors
  import OwnedHandle
  import Datatypes
  import ReductionOps

  /** The request object: MPI_REQUEST_NULL, or the handle of one operation. */
  datatype Request = NullRequest | Pending(id: nat)

  /** MPI_Status: the three public fields and the ones only the library reads. */
  datatype NativeStatus = NativeStatus(source: int, tag: int, error: int, count: int, cancelled: bool)

  /** The `status` wrapper: the native record, kept as it was received. */
  datatype Status = Status(record: NativeStatus) {
    /** `source()` */
    function Source(): int { record.source }
    /** `tag()` */
    function Tag(): int { record.tag }
    /** `error()` */
    function Error(): int { record.error }
  }

  /** Where a non-blocking call reads or writes its data: MPI_IN_PLACE, or a
      buffer at some address. */
  datatype Buffer = InPlace | At(address: nat)

  /** A non-blocking native call and the arguments the wrapper forwards to it
      (the communicator aside). */
  datatype Operation =
    | Iallreduce(send: Buffer, recv: Buffer, count: int, dtype: OwnedHandle.Handle<Datatypes.Tag>,
                 op: OwnedHandle.Handle<ReductionOps.Tag>)
    | Isend(buf: nat, count: int, dtype: OwnedHandle.Handle<Datatypes.Tag>, dest: int, tag: int)
    | Irecv(buf: nat, count: int, dtype: OwnedHandle.Handle<Datatypes.Tag>, source: int, tag: int)
    | Ibarrier
    | Ibcast(buf: nat, count: int, dtype: OwnedHandle.Handle<Datatypes.Tag>, root: int)

  /** A native call on requests, as the library sees it. */
  datatype Call =
    | Started(id: nat, op: Operation) // a non-blocking operation began
    | Waited(id: nat)                 // MPI_Wait
    | Tested(id: nat)                 // MPI_Test
    | WaitedAll(batch: seq<Request>)  // MPI_Waitall

  /** The library's table of non-blocking operations. */
  datatype Engine = Engine(active: set<nat>, next: nat, completed: seq<nat>, calls: seq<Call>) {

    /** Coherent bookkeeping: active operations were started, and each operation
        completed at most once and is then no longer active. */
    predicate Valid() {
      && (forall id :: id in active ==> id < next)
      && (forall i :: 0 <= i < |completed| ==> completed[i] < next && completed[i] !in active)
      && (forall i, j :: 0 <= i < j < |completed| ==> completed[i] != completed[j])
    }
  }

  /** The library after operation `id` completed through `call`. */
  function Complete(e: Engine, id: nat, call: Call): Engine
  {
    Engine(e.active - {id}, e.next, e.completed + [id], e.calls + [call])
  }

  /** A pending request names an operation that is still active. */
  predicate Sound(r: Request, e: Engine)
  {
    r.Pending? ==> r.id in e.active
  }

  /** `e'` is `e` after one more operation began: it is active under the next
      id, the counter moved past it, and nothing completed. */
  predicate StartsOne(e: Engine, e': Engine)
  {
    && e'.active == e.active + {e.next}
    && e'.next == e.next + 1
    && e'.completed == e.completed
  }

  /** A non-blocking native call (MPI_Isend, MPI_Irecv, MPI_Iallreduce,
      MPI_Ibarrier, MPI_Ibcast) with status `code`; the wrapper stores the handle
      it produced unchanged (the explicit constructor). On failure the exception
      leaves before any request exists. */
  function Start(e: Engine, call: Operation, lib: ErrorStrings, code: int): (r: Result<(Request, Engine)>)
    ensures r.Ok? <==> code == SUCCESS
    ensures r.Ok? ==> r.value.0 == Pending(e.next)
    ensures r.Ok? ==> r.value.1 == Engine(e.active + {e.next}, e.next + 1, e.completed, e.calls + [Started(e.next, call)])
    ensures r.Ok? && e.Valid() ==> e.next !in e.active && r.value.1.Valid() && Sound(r.value.0, r.value.1)
  {
    var o := HandleError(lib, code);
    if o.Fail? then Err(o.failure)
    else Ok((Pending(e.next), Engine(e.active + {e.next}, e.next + 1, e.completed, e.calls + [Started(e.next, call)])))
  }

  /** `wait()`: no native call on a null request; otherwise exactly one MPI_Wait,
      after which the request is null. */
  function Wait(r: Request, e: Engine, lib: ErrorStrings, code: int): (res: Result<(Request, Engine)>)
    ensures r.NullRequest? ==> res == Ok((r, e))
    ensures r.Pending? ==> (res.Ok? <==> code == SUCCESS)
    ensures res.Ok? ==> res.value.0 == NullRequest
    ensures r.Pending? && res.Ok? ==> res.value.1 == Complete(e, r.id, Waited(r.id))
    ensures res.Ok? && e.Valid() && Sound(r, e) ==> res.value.1.Valid()
  {
    if r.NullRequest? then Ok((r, e))
    else
      var o := HandleError(lib, code);
      if o.Fail? then Err(o.failure) else Ok((NullRequest, Complete(e, r.id, Waited(r.id))))
  }

  /** A second `wait()` right after a successful one is a no-op: no native
      call, whatever the library would answer. */
  lemma WaitIsIdempotent(r: Request, e: Engine, lib: ErrorStrings, code: int, code2: int)
    requires Wait(r, e, lib, code).Ok?
    ensures var (r', e') := Wait(r, e, lib, code).value;
      Wait(r', e', lib, code2) == Ok((r', e'))
  {
  }

  /** `test()`: true at once, with no native call, on a null request; otherwise
      one MPI_Test whose flag the library chooses, and the request becomes null
      exactly when the flag is true. */
  function Test(r: Request, e: Engine, lib: ErrorStrings, code: int, flag: bool): (res: Result<(bool, Request, Engine)>)
    ensures r.NullRequest? ==> res == Ok((true, r, e))
    ensures r.Pending? ==> (res.Ok? <==> code == SUCCESS)
    ensures r.Pending? && res.Ok? ==> res.value.0 == flag
    ensures res.Ok? ==> (res.value.1.NullRequest? <==> res.value.0)
    ensures res.Ok? && !res.value.0 ==> res.value.1 == r
    ensures r.Pending? && res.Ok? ==> res.value.2.calls == e.calls + [Tested(r.id)]
    ensures r.Pending? && res.Ok? && flag ==> res.value.2 == Complete(e, r.id, Tested(r.id))
    ensures r.Pending? && res.Ok? && !flag ==> res.value.2 == e.(calls := e.calls + [Tested(r.id)])
    ensures res.Ok? && e.Valid() && Sound(r, e) ==> res.value.2.Valid() && Sound(res.value.1, res.value.2)
  {
    if r.NullRequest? then Ok((true, r, e))
    else
      var o := HandleError(lib, code);
      if o.Fail? then Err(o.failure)
      else if flag then Ok((true, NullRequest, Complete(e, r.id, Tested(r.id))))
      else Ok((false, r, e.(calls := e.calls + [Tested(r.id)])))
  }

  /** `wait(status&)`: as `wait()`; the status argument is left alone on a null
      request and overwritten with the completion record otherwise. */
  function WaitStatus(r: Request, st: Status, e: Engine, lib: ErrorStrings, code: int, record: NativeStatus)
    : (res: Result<(Request, Status, Engine)>)
    ensures r.NullRequest? ==> res == Ok((r, st, e))
    ensures r.Pending? && res.Ok? ==> res.value.1 == Status(record)
    ensures res.Ok? <==> Wait(r, e, lib, code).Ok?
    ensures res.Ok? ==> (res.value.0, res.value.2) == Wait(r, e, lib, code).value
  {
    if r.NullRequest? then Ok((r, st, e))
    else
      var (r', e') :- Wait(r, e, lib, code);
      Ok((r', Status(record), e'))
  }

  /** `test(status&)`: as `test()`; on a pending request the status argument is
      overwritten even when the flag is false (MPI leaves the record undefined
      then, and the wrapper copies it anyway). */
  function TestStatus(r: Request, st: Status, e: Engine, lib: ErrorStrings, code: int, flag: bool, record: NativeStatus)
    : (res: Result<(bool, Request, Status, Engine)>)
    ensures r.NullRequest? ==> res == Ok((true, r, st, e))
    ensures r.Pending? && res.Ok? ==> res.value.2 == Status(record)
    ensures res.Ok? <==> Test(r, e, lib, code, flag).Ok?
    ensures res.Ok? ==> (res.value.0, res.value.1, res.value.3) == Test(r, e, lib, code, flag).value
  {
    if r.NullRequest? then Ok((true, r, st, e))
    else
      var (done, r', e') :- Test(r, e, lib, code, flag);
      Ok((done, r', Status(record), e'))
  }

  /** The status wrapper keeps the record it was built from: its accessors
      give back the record's source, tag and error fields. */
  lemma StatusKeepsRecord(record: NativeStatus)
    ensures Status(record).record == record
    ensures Status(record).Source() == record.source
    ensures Status(record).Tag() == record.tag
    ensures Status(record).Error() == record.error
  {
  }

  /** The message of the copy constructor's std::logic_error. */
  const COPY_CONSTRUCT_MESSAGE: string := "tried to copy construct from a non-null mpicxx::request object"

  /** The message of the copy assignment's exception. */
  const COPY_ASSIGN_MESSAGE: string := "tried to copy assign from a non-null mpicxx::request object"

  /** The copy constructor: copying a pending request throws std::logic_error;
      copying a null request gives a null request. */
  function CopyConstruct(other: Request): (r: Result<Request>)
    ensures r.Ok? <==> other.NullRequest?
    ensures r.Ok? ==> r.value == NullRequest
    ensures r.Err? ==> r.failure == LogicError(COPY_CONSTRUCT_MESSAGE)
  {
    if other.Pending? then Err(LogicError(COPY_CONSTRUCT_MESSAGE)) else Ok(other)
  }

  /** Copy assignment: a pending source throws before anything is touched; a
      null source makes the target wait for its own operation, and the target
      ends null. */
  function CopyAssign(target: Request, other: Request, e: Engine, lib: ErrorStrings, code: int)
    : (r: Result<(Request, Engine)>)
    ensures other.Pending? ==> r == Err(FromMessage(COPY_ASSIGN_MESSAGE))
    ensures other.NullRequest? ==> r == Wait(target, e, lib, code)
    ensures r.Ok? ==> r.value.0 == NullRequest
  {
    if other.Pending? then Err(FromMessage(COPY_ASSIGN_MESSAGE))
    else
      var (_, e') :- Wait(target, e, lib, code);
      Ok((other, e'))
  }

  /** The target and the source of a move, after it. */
  datatype Moved = Moved(target: Request, source: Request)

  /** The move constructor: never waits, never fails, takes the handle and
      nulls the source. */
  function MoveConstruct(source: Request): (m: Moved)
    ensures m.target == source && m.source == NullRequest
  {
    Moved(source, NullRequest)
  }

  /** Move assignment between two distinct requests: wait for the target's own
      operation, then take the source's handle and null the source. */
  function MoveAssign(target: Request, source: Request, e: Engine, lib: ErrorStrings, code: int)
    : (r: Result<(Moved, Engine)>)
    ensures r.Ok? <==> Wait(target, e, lib, code).Ok?
    ensures r.Ok? ==> r.value.0 == Moved(source, NullRequest)
    ensures r.Ok? ==> r.value.1 == Wait(target, e, lib, code).value.1
  {
    var (_, e') :- Wait(target, e, lib, code);
    Ok((Moved(source, NullRequest), e'))
  }

  /** The destructor waits: a pending request is completed before the object
      disappears. Destructors cannot let an exception escape, so an `Err` here
      ends the program. */
  function Destroy(r: Request, e: Engine, lib: ErrorStrings, code: int): (res: Result<Engine>)
    ensures res.Ok? <==> Wait(r, e, lib, code).Ok?
    ensures res.Ok? ==> res.value == Wait(r, e, lib, code).value.1
  {
    var (_, e') :- Wait(r, e, lib, code);
    Ok(e')
  }

  /** A request whose return value is discarded is destroyed at once, so the
      call blocks: starting an operation and dropping its request leaves the
      operation completed, with the wait right after the start in the log. */
  lemma DiscardedRequestBlocks(e: Engine, call: Operation, lib: ErrorStrings, startCode: int, waitCode: int)
    requires e.Valid()
    requires startCode == SUCCESS && waitCode == SUCCESS
    ensures var (r, e1) := Start(e, call, lib, startCode).value;
      var e2 := Destroy(r, e1, lib, waitCode).value;
      && e2.active == e.active
      && e2.completed == e.completed + [e.next]
      && e2.calls == e.calls + [Started(e.next, call), Waited(e.next)]
      && e2.Valid()
  {
  }

  // ---------------------------------------------------------------------------
  // waitall

  /** The operations a batch holds, in array order. */
  function PendingIds(batch: seq<Request>): (ids: seq<nat>)
    ensures |ids| <= |batch|
    ensures forall id :: id in ids <==> Pending(id) in batch
    decreases |batch|
  {
    if batch == [] then []
    else
      var rest := PendingIds(batch[..|batch| - 1]);
      assert batch == batch[..|batch| - 1] + [batch[|batch| - 1]];
      match batch[|batch| - 1]
      case Pending(id) => rest + [id]
      case NullRequest => rest
  }

  /** The MPI_Wait calls that waiting for each of `ids` in turn logs. */
  function WaitedCalls(ids: seq<nat>): seq<Call>
    decreases |ids|
  {
    if ids == [] then []
    else WaitedCalls(ids[..|ids| - 1]) + [Waited(ids[|ids| - 1])]
  }

  /** The ids in a list, as a set. */
  function IdSet(ids: seq<nat>): set<nat>
  {
    set id | id in ids
  }

  /** `waitall(count, array)`: one MPI_Waitall over the first `count` requests
      of the contiguous array, null entries included (the library ignores
      them). On success every one of them is null and each pending operation
      among them has completed, in array order; on failure one exception stands
      for the whole batch and nothing is known to have completed. */
  function WaitAll(batch: seq<Request>, count: nat, e: Engine, lib: ErrorStrings, code: int)
    : (r: Result<(seq<Request>, Engine)>)
    requires count <= |batch|
    ensures r.Ok? <==> code == SUCCESS
    ensures r.Ok? ==> |r.value.0| == |batch|
    ensures r.Ok? ==> forall i :: 0 <= i < count ==> r.value.0[i] == NullRequest
    ensures r.Ok? ==> r.value.0[count..] == batch[count..]
    ensures r.Ok? ==> r.value.1.calls == e.calls + [WaitedAll(batch[..count])]
    ensures r.Ok? ==> r.value.1.next == e.next
    ensures r.Ok? ==> forall id :: id in e.active && Pending(id) !in batch[..count] ==> id in r.value.1.active
    ensures r.Ok? ==> forall id :: Pending(id) in batch[..count] ==> id !in r.value.1.active && id in r.value.1.completed
  {
    var o := HandleError(lib, code);
    if o.Fail? then Err(o.failure)
    else
      var done := batch[..count];
      var ids := PendingIds(done);
      Ok((seq(count, _ => NullRequest) + batch[count..],
          Engine(e.active - IdSet(ids), e.next, e.completed + ids, e.calls + [WaitedAll(done)])))
  }

  /** The reference for `waitall`: `wait()` on each request of the batch in
      turn, every wait succeeding. */
  function WaitEach(batch: seq<Request>, e: Engine, lib: ErrorStrings): (res: (seq<Request>, Engine))
    ensures |res.0| == |batch|
    decreases |batch|
  {
    if batch == [] then ([], e)
    else
      var (front, e1) := WaitEach(batch[..|batch| - 1], e, lib);
      var (r, e2) := Wait(batch[|batch| - 1], e1, lib, SUCCESS).value;
      (front + [r], e2)
  }

  /** A batch wait ends where waiting for each request in turn ends: the same
      null requests, the same active operations and the same completion order;
      only the call log differs (one MPI_Waitall instead of one MPI_Wait per
      pending request). */
  lemma {:induction false} WaitEachMatchesWaitAll(batch: seq<Request>, e: Engine, lib: ErrorStrings)
    ensures var (rs, e') := WaitEach(batch, e, lib);
      && (forall i :: 0 <= i < |rs| ==> rs[i] == NullRequest)
      && e'.active == e.active - IdSet(PendingIds(batch))
      && e'.completed == e.completed + PendingIds(batch)
      && e'.next == e.next
      && e'.calls == e.calls + WaitedCalls(PendingIds(batch))
    decreases |batch|
  {
    WaitEachNulls(batch, e, lib);
    WaitEachCompletes(batch, e, lib);
    WaitEachLogsWaits(batch, e, lib);
  }

  /** Waiting for each request in turn leaves every one of them null. */
  lemma {:induction false} WaitEachNulls(batch: seq<Request>, e: Engine, lib: ErrorStrings)
    ensures forall i :: 0 <= i < |WaitEach(batch, e, lib).0| ==> WaitEach(batch, e, lib).0[i] == NullRequest
    decreases |batch|
  {
    if batch != [] {
      var n := |batch|;
      WaitEachNulls(batch[..n - 1], e, lib);
      var (rs1, e1) := WaitEach(batch[..n - 1], e, lib);
      var (r, e2) := Wait(batch[n - 1], e1, lib, SUCCESS).value;
      assert WaitEach(batch, e, lib).0 == rs1 + [r];
    }
  }

  /** Waiting for each request in turn completes the batch's operations in
      batch order, removes them from the active set and leaves the counter. */
  lemma {:induction false} WaitEachCompletes(batch: seq<Request>, e: Engine, lib: ErrorStrings)
    ensures var e' := WaitEach(batch, e, lib).1;
      && e'.active == e.active - IdSet(PendingIds(batch))
      && e'.completed == e.completed + PendingIds(batch)
      && e'.next == e.next
    decreases |batch|
  {
    if batch != [] {
      var n := |batch|;
      var last := batch[n - 1];
      WaitEachCompletes(batch[..n - 1], e, lib);
      assert batch == batch[..n - 1] + [last];
      var e1 := WaitEach(batch[..n - 1], e, lib).1;
      assert WaitEach(batch, e, lib).1 == Wait(last, e1, lib, SUCCESS).value.1;
      var front := PendingIds(batch[..n - 1]);
      if last.Pending? {
        assert PendingIds(batch) == front + [last.id];
        assert IdSet(front + [last.id]) == IdSet(front) + {last.id};
      } else {
        assert PendingIds(batch) == front;
      }
    }
  }

  /** The log of waiting for each request in turn: one MPI_Wait per pending
      request, in batch order. */
  lemma {:induction false} WaitEachLogsWaits(batch: seq<Request>, e: Engine, lib: ErrorStrings)
    ensures WaitEach(batch, e, lib).1.calls == e.calls + WaitedCalls(PendingIds(batch))
    decreases |batch|
  {
    if batch != [] {
      var n := |batch|;
      var last := batch[n - 1];
      WaitEachLogsWaits(batch[..n - 1], e, lib);
      assert batch == batch[..n - 1] + [last];
      var e1 := WaitEach(batch[..n - 1], e, lib).1;
      assert WaitEach(batch, e, lib).1 == Wait(last, e1, lib, SUCCESS).value.1;
      var front := PendingIds(batch[..n - 1]);
      if last.Pending? {
        assert PendingIds(batch) == front + [last.id];
        assert (front + [last.id])[..|front|] == front;
      } else {
        assert PendingIds(batch) == front;
      }
    }
  }

  /** `waitall` and its reference agree: a successful batch wait leaves the
      same null requests, the same active operations and the same completion
      order as waiting for each of the first `count` requests in turn. */
  lemma WaitAllIsWaitEach(batch: seq<Request>, count: nat, e: Engine, lib: ErrorStrings)
    requires count <= |batch|
    ensures WaitAll(batch, count, e, lib, SUCCESS).Ok?
    ensures var (rs, e1) := WaitAll(batch, count, e, lib, SUCCESS).value;
      var (each, e2) := WaitEach(batch[..count], e, lib);
      && rs[..count] == each
      && e1.active == e2.active
      && e1.completed == e2.completed
      && e1.next == e2.next
  {
    WaitEachMatchesWaitAll(batch[..count], e, lib);
  }

  /** Under the ownership discipline (pending requests of the batch are active
      and distinct), `waitall` over the whole batch completes each of them
      exactly once and keeps the library's bookkeeping coherent. */
  lemma WaitAllKeepsEngineValid(batch: seq<Request>, e: Engine, lib: ErrorStrings)
    requires e.Valid()
    requires forall i :: 0 <= i < |batch| ==> Sound(batch[i], e)
    requires forall i, j :: 0 <= i < j < |batch| && batch[i].Pending? ==> batch[i] != batch[j]
    ensures WaitAll(batch, |batch|, e, lib, SUCCESS).Ok?
    ensures WaitAll(batch, |batch|, e, lib, SUCCESS).value.1.Valid()
  {
    assert batch[..|batch|] == batch;
    BatchCompletionValid(batch, e);
  }

  /** The engine a successful `waitall` builds, before its log entry: the
      batch's operations moved from active to completed, in order. */
  lemma BatchCompletionValid(batch: seq<Request>, e: Engine)
    requires e.Valid()
    requires forall i :: 0 <= i < |batch| ==> Sound(batch[i], e)
    requires forall i, j :: 0 <= i < j < |batch| && batch[i].Pending? ==> batch[i] != batch[j]
    ensures Engine(e.active - IdSet(PendingIds(batch)), e.next, e.completed + PendingIds(batch), e.calls).Valid()
  {
    var ids := PendingIds(batch);
    PendingIdsDistinct(batch);
    var completed := e.completed + ids;
    forall i | 0 <= i < |completed|
      ensures completed[i] < e.next
    {
      if i >= |e.completed| {
        assert completed[i] in ids;
      }
    }
    forall i, j | 0 <= i < j < |completed|
      ensures completed[i] != completed[j]
    {
      if i < |e.completed| && j >= |e.completed| {
        assert completed[j] in ids;
        assert completed[j] in e.active;
      }
    }
  }

  /** Distinct pending requests give distinct ids. */
  lemma {:induction false} PendingIdsDistinct(batch: seq<Request>)
    requires forall i, j :: 0 <= i < j < |batch| && batch[i].Pending? ==> batch[i] != batch[j]
    ensures forall i, j :: 0 <= i < j < |PendingIds(batch)| ==> PendingIds(batch)[i] != PendingIds(batch)[j]
    decreases |batch|
  {
    if batch != [] {
      var n := |batch|;
      var front := batch[..n - 1];
      PendingIdsDistinct(front);
      if batch[n - 1].Pending? {
        forall i | 0 <= i < |front|
          ensures front[i] != batch[n - 1]
        {
          assert front[i] == batch[i];
        }
        assert batch[n - 1] !in front;
      }
    }
  }
}
