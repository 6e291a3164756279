# mpicpp handle lifecycle, in Dafny

mpicpp is a thin C++ wrapper over MPI. This project models the part of it
that is not message passing: how the wrapper objects acquire, hand over and
release the library's native handles, and what it does with the library's
status codes.

- **Error channel** (`Errors`). `handle_error` turns MPI_SUCCESS into "carry
  on" and every other status code into an `exception`. That exception's
  message is the library's text for the code, terminated at the length the
  library reports and read as a C string. The request copy constructor throws
  `std::logic_error` instead. Exceptions are values of a `Result` type.
- **Owned handles** (`OwnedHandle`, `HandleScope`, `Datatypes`,
  `ReductionOps`, `Comms`). `comm`, `datatype` and `op` share one pattern,
  which is written once:
  - A wrapper is a pair (native handle, owned flag).
  - Predefined constants are wrapped unowned. Creating calls give owned
    wrappers.
  - Moving hands the pair over and resets the source. Move assignment first
    releases what the target owns. The destructor releases iff owned.
  - The native library is a `Pool`: the live run-time handles, a creation
    counter, and the log of release calls.
  - `HandleScope` runs whole blocks of declarations, moves and scope exits.
    It proves that the live handles are always exactly the ones owned, each
    by one object. So no handle is released twice, and leaving a block
    releases everything it owned, innermost declaration first.
- **Requests** (`Requests`, `RequestScope`). A `request` is null or pending.
  - `wait`, `test`, their `status` overloads, copy (allowed only from a null
    request), move, the waiting destructor, and `waitall` over a contiguous
    batch all act on an `Engine`: the active operations, a counter, the order
    in which operations completed, and a log of native calls.
  - `RequestScope` proves the request counterpart of the block theorem: every
    active operation is held by exactly one request. So none completes twice,
    and leaving a block completes all of them.
- **Communicator calls** (`Comms`):
  - the creating factories and the integer queries;
  - the calls that start a non-blocking operation and return its request;
  - the two-phase `ibcast(std::string&)`: length first, waited on at once
    through a discarded temporary request, then resize, then payload.
- **Environment guard** (`Environment`). The constructor initializes iff the
  runtime says it is not initialized. The destructor finalizes iff the runtime
  says it is not finalized. Any number of nested or successive guards
  therefore call MPI_Init and MPI_Finalize at most once each, in that order.

Parameters stand in for everything the native library decides:
- each native call's status code;
- MPI_Test's flag;
- the status record a wait or test fills in;
- the text MPI_Error_string writes and the length it reports;
- the answers of the queries;
- whether MPI_Comm_split or MPI_Cart_create returns MPI_COMM_NULL to this
  process.

The repository has two revisions of the same code: the split `lib/` tree and
the single-file `mpicpp.hpp`/`mpicpp.cpp`. Their behaviour is the same where
both define it, apart from the text of two exception messages (see Left
out), so it is modelled once. The rows below cite whichever
revision the member follows most closely.

Four behaviours of the code that a caller might not expect, which the model
follows:
- `split`, `split_type` and `cart_create` can return a wrapper that owns the
  null handle; see Findings.
- `wait(status&)` on a null request leaves the caller's status untouched.
- Move assignment first releases what the target owns, and that release can
  throw.
- A failing `size()` or `rank()` throws the library's exception, like any
  other failing status code.

## Model

| member | source | states |
|---|---|---|
| Errors.CString | lib/src/exception.cpp:12-13 | Reading a buffer as a C string gives a NUL-free prefix of it, which ends at the first NUL if there is one. |
| Errors.CodeMessage | lib/src/exception.cpp:7-14 | The message of `exception(int)` is a NUL-free prefix of the library's text, at most `resultlen` long. It stops at the first NUL within those `resultlen` characters, and is exactly those characters when they hold none. The text type requires `resultlen` to lie inside the buffer, where the terminator is written. |
| Errors.MessageRoundTrip | lib/src/exception.cpp:16-24 | A NUL-free message given to `exception(const char*)` comes back unchanged from `what()`. |
| Errors.HandleError | lib/src/exception.cpp:26-31 | No failure iff the code is MPI_SUCCESS. Otherwise the failure is the exception built from that very code. |
| Errors.HandleErrorMessage | mpicpp.cpp:5-26 | A failing code always throws the library's own exception kind. Its message is a NUL-free prefix of the library's text, no longer than the reported length. It stops at the first NUL within that length, and is the whole reported text when that holds no NUL. |
| OwnedHandle.NativeCreate | lib/src/comm.cpp:142-148 | A creating call succeeds iff its status is success. It then yields a fresh handle that is now live, or the null handle with the table unchanged when this process is excluded. The table stays coherent. |
| OwnedHandle.Destroy | lib/src/comm.cpp:22-28 | The destructor fails iff the wrapper owns its handle and the release fails. The release log grows by exactly that handle iff it is owned, and nothing changes otherwise. The owned handle leaves the live set, and the table stays coherent. |
| OwnedHandle.DestroyUnownedIsSilent | lib/src/datatype.cpp:20-26 | Destroying an unowned wrapper makes no native call, whatever status the library would return. |
| OwnedHandle.MoveConstruct | lib/header/communicators/comm.hpp:31-36 | The new wrapper holds the source's (handle, owned) pair. The source becomes (null, false). |
| OwnedHandle.MoveAssign | lib/src/comm.cpp:9-20 | Move assignment fails iff the target owns its handle and releasing it fails. On success the target's release has happened, the target holds the source's pair, and the source is (null, false). |
| OwnedHandle.MoveAssignKeepsOwnership | lib/src/reductionop.cpp:6-17 | Between two distinct wrappers, after the move the target owns exactly what the source owned and the source owns nothing. Only the target's old handle has left the live set, and the table stays coherent. |
| OwnedHandle.MovedFromIsInert | lib/header/datatype/datatype.hpp:29-34 | Destroying the source of a move makes no native call, whatever status the library would return. |
| OwnedHandle.Acquire | lib/src/comm.cpp:120-128 | A creating factory succeeds iff the native call does. Its wrapper owns the next handle, which joins the live set while the counter moves past it and every other live handle and the release log are kept; or, for an excluded process, is the default wrapper with the table unchanged. That excluded case is the corrected factory of Findings; no factory in the source returns the default wrapper. On failure no wrapper exists. |
| HandleScope.ApplyKeepsValid | lib/header/communicators/comm.hpp:19-36 | Each statement keeps the ownership invariant: declaring a default, predefined, created (by `dup`, or by a corrected `split` that may exclude the process) or move-constructed wrapper; move-assigning; or leaving a scope. The invariant is that the live handles are exactly the ones the objects own, each owned by one object. |
| HandleScope.AssignKeepsValid | lib/src/datatype.cpp:7-18 | Move assignment between any two objects in scope keeps the ownership invariant, self-move included. |
| HandleScope.ExecuteKeepsValid | lib/src/comm.cpp:9-28 | Any sequence of statements keeps the ownership invariant, whether it runs to the end or stops at an exception. So no handle is ever released twice. The creating statements are the corrected factories. |
| HandleScope.LeaveBlock | mpicpp.cpp:239-244 | Leaving a block destroys every object, innermost first. It succeeds iff every owning object's release succeeds. Then each handle the block owned was released exactly once, in reverse declaration order, and nothing is left live. |
| HandleScope.AllOwnedReleased | lib/src/reductionop.cpp:19-25 | Every handle live at the start of a block is in the block's release order. |
| HandleScope.AssignSlotsIsMoveAssign | mpicpp.cpp:228-237 | For two distinct objects, the field-by-field move assignment on the block is the two-object move assignment. |
| HandleScope.SelfAssign | mpicpp.cpp:159-169 | `x = std::move(x)` releases x's handle once if it owns it and leaves x as the default wrapper. |
| Datatypes.PredefinedIsInert | lib/src/datatype.cpp:28-81 | Every `predefined_*` factory holds its own constant, distinct from the other factories' constants. It owns nothing, and destroying it, directly or after a move, makes no native call. |
| Datatypes.TagOf | mpicpp.hpp:17-118 | No scalar type maps to MPI_PACKED. |
| Datatypes.PredefinedDatatype | mpicpp.hpp:122-126 | `predefined_datatype<T>()` is an unowned predefined constant other than MPI_PACKED. |
| Datatypes.TagOfInjective | mpicpp.hpp:17-118 | Two scalar types map to the same constant iff they are the same type. |
| Datatypes.TagOfCoversAllButPacked | lib/src/datatype.cpp:73-81 | A constant is reached by some scalar type iff it is not MPI_PACKED. In particular `bool` reaches MPI_C_BOOL. |
| ReductionOps.Wrap | lib/header/reductionoperation/reductionop.hpp:15-19 | `get()` returns the handle the wrapper was built from. |
| ReductionOps.WrapOwnsByDefault | lib/header/reductionoperation/reductionop.hpp:16 | A wrapper built from a handle alone owns it and its destructor releases it. Only an explicit `false` makes it inert. |
| ReductionOps.Predefined | lib/src/reductionop.cpp:29-47 | `sum`, `min`, `max` and `bor` hold their constant. Destroying them makes no native call, for every table and status code. |
| ReductionOps.Create | lib/src/reductionop.cpp:49-57 | `create` succeeds iff MPI_Op_create does. It then gives an owned wrapper of a fresh live handle, and the table stays coherent. |
| ReductionOps.CreateIsAcquire | mpicpp.cpp:150-157 | `create` is the pattern's creating factory, so the block theorem covers operators it makes. |
| ReductionOps.CreateThenDestroy | lib/src/reductionop.cpp:19-25 | A created operator's destructor releases exactly that operator. The live set returns to what it was before, and the table stays coherent. |
| Requests.Start | lib/header/handles/request.hpp:18-21 | A non-blocking call succeeds iff its status is success. Its request holds the new operation, which is now active. The call is logged with all its arguments, and the table stays coherent. |
| Requests.Wait | lib/src/request.cpp:36-42 | `wait()` on a null request makes no native call. On a pending one it makes exactly one MPI_Wait, succeeds iff that does, then completes the operation and nulls the request. |
| Requests.WaitIsIdempotent | mpicpp.cpp:58-63 | A second `wait()` right after a successful one makes no native call, whatever the library would return. |
| Requests.Test | lib/src/request.cpp:44-52 | `test()` on a null request returns true with no native call. On a pending one it returns the library's flag, and the request becomes null iff the flag is true. Only then is the operation completed; either way one MPI_Test is logged. |
| Requests.WaitStatus | lib/src/request.cpp:54-62 | `wait(status&)` leaves the status untouched on a null request and stores the completion record otherwise. Apart from that it behaves exactly as `wait()`. |
| Requests.TestStatus | lib/src/request.cpp:64-74 | `test(status&)` leaves the status untouched on a null request. Otherwise it overwrites it, even when the flag is false. Apart from that it behaves exactly as `test()`. |
| Requests.StatusKeepsRecord | lib/header/handles/status.hpp:13-19 | A status keeps the record it was built from, and `source()`, `tag()` and `error()` return that record's fields. |
| Requests.CopyConstruct | lib/src/request.cpp:8-15 | Copying succeeds iff the source is null, and the copy is null. A pending source throws `std::logic_error` with the source's message. |
| Requests.CopyAssign | lib/src/request.cpp:17-26 | A pending source throws before anything is touched. A null source makes the target wait for its own operation, and the target ends null. |
| Requests.MoveConstruct | lib/header/handles/request.hpp:24-28 | The move constructor never waits or fails. The new request holds the source's handle, and the source is null. |
| Requests.MoveAssign | lib/src/request.cpp:28-34 | Move assignment succeeds iff the target's own wait does. It then holds the source's handle, and the source is null. |
| Requests.Destroy | lib/src/request.cpp:76-79 | The destructor is a wait: it succeeds iff that wait does and leaves the library where the wait leaves it. |
| Requests.DiscardedRequestBlocks | examples/main.cpp:9-10 | Dropping the request a call returns completes the operation at once: the wait follows the start in the log, and the operation is completed and no longer active. |
| Requests.WaitAll | lib/src/request.cpp:81-89 | `waitall` makes one MPI_Waitall over the first `count` requests and succeeds iff it does. Then those requests are null and the rest are untouched. Their operations have completed and are no longer active, and every other active operation stays active. |
| Requests.WaitEachMatchesWaitAll | mpicpp.cpp:99-107 | Waiting for each request of a batch in turn ends where `waitall` does: the same null requests, active set and completion order. Only the log differs: one MPI_Wait per pending request, in batch order, instead of a single MPI_Waitall. |
| Requests.WaitAllIsWaitEach | lib/src/request.cpp:83-88 | A successful `waitall` over the first `count` requests leaves the same null requests, active operations, counter and completion order as waiting for each of them in turn. |
| Requests.WaitAllKeepsEngineValid | lib/src/request.cpp:84-88 | When a batch holds distinct active operations, a successful `waitall` over the whole batch completes each exactly once, and the engine it returns stays coherent. |
| RequestScope.ApplyKeepsValid | lib/header/handles/request.hpp:14-28 | Each request statement keeps the invariant: declaring, starting, copying, moving, copy- and move-assigning, wait, test, `waitall` over a contiguous run, and leaving a scope. The invariant is that the active operations are exactly the ones held, each by one request. |
| RequestScope.WaitAllKeepsValid | lib/src/request.cpp:81-89 | `waitall` over any contiguous run of requests in scope keeps the invariant. |
| RequestScope.ExecuteKeepsValid | lib/src/request.cpp:8-34 | Any sequence of request statements keeps the invariant, whether it runs to the end or stops at an exception. So no operation completes twice and none is lost while active. |
| RequestScope.LeaveBlock | mpicpp.cpp:94-97 | Leaving a block waits for every request, innermost first. It succeeds iff every pending request's wait succeeds. Then every operation the block held completed exactly once, in reverse declaration order, and none is active. |
| RequestScope.AllHeldCompleted | lib/src/request.cpp:76-79 | Every operation active at the start of a block is in the block's completion order. |
| RequestScope.MoveSlotsIsMoveAssign | mpicpp.cpp:50-56 | For two distinct requests, the slot-level move assignment is the two-object move assignment. |
| RequestScope.SelfMove | lib/src/request.cpp:28-34 | `r = std::move(r)` completes r's own operation and leaves r null. |
| RequestScope.CopyOfPendingBreaksValid | lib/src/request.cpp:10-13 | Why copying refuses a pending request: two requests holding one operation break the invariant, and leaving the block would wait on that operation twice. |
| Comms.PredefinedCommsAreInert | lib/src/comm.cpp:110-118 | `world()` and `self()` are distinct constants and own nothing. Destroying them makes no native call. |
| Comms.CreateAsWritten | lib/src/comm.cpp:140-181 | As written, a successful `split`, `split_type` or `cart_create` always sets the owned flag. The handle is null exactly for an excluded process of a call that can exclude one. The table is unchanged for a null handle; otherwise only the new handle is added to it. |
| Comms.AsWrittenOwnsNullComm | mpicpp.cpp:346-374 | As written, an excluded process holds an owning wrapper of MPI_COMM_NULL. That wrapper owns no live handle. Its destructor either throws or logs a release of a handle the library never created, which breaks the table's coherence. |
| Comms.AsWrittenBreaksScope | lib/src/comm.cpp:140-150 | In a block that keeps the ownership invariant, declaring what `split`, `split_type` or `cart_create` as written return to an excluded process breaks the invariant. Declaring what the corrected factory returns keeps it. |
| Comms.Create | lib/src/comm.cpp:120-128 | Corrected factories: they succeed iff the native call does. The wrapper owns its handle iff it is not null, and `dup` always owns a fresh handle. The table is unchanged for a null handle; otherwise only the new handle is added, keeping every other live handle and the release log. The table stays coherent. |
| Comms.CreateMatchesAsWritten | mpicpp.cpp:336-344 | Wherever the library returns a real communicator, and always for `dup`, the corrected factories return exactly what the written ones do. |
| Comms.ExcludedCommIsInert | lib/src/comm.cpp:152-163 | With the correction, an excluded process gets the default wrapper, whose destruction makes no native call, and the table is untouched. |
| Comms.Ask | lib/src/comm.cpp:30-48 | `size`, `rank`, `cartdim_get` and `cart_rank` return the library's answer iff the status is success. Otherwise they return the exception for that code. |
| Comms.AskFailureHidesAnswer | lib/src/comm.cpp:30-38 | A failed query returns the same exception whatever the library answered, and its message is the library's text for the code up to the first NUL. |
| Comms.Iallreduce | lib/src/comm.cpp:50-68 | `iallreduce` succeeds iff MPI_Iallreduce does. It returns the request of the started operation, which was logged with both buffers, the count and the borrowed datatype and operator handles. The new operation is active, the counter moves past it, and no operation completes. |
| Comms.IallreduceOf | lib/header/communicators/comm.hpp:47-66 | The template uses the predefined constant of `T` as the datatype. The new operation is active, the counter moves past it, and no operation completes. |
| Comms.IallreduceInPlace | lib/header/communicators/comm.hpp:67-85 | The in-place template passes MPI_IN_PLACE as the send buffer and its one buffer as the receive buffer. The new operation is active, the counter moves past it, and no operation completes. |
| Comms.Isend | lib/src/comm.cpp:70-88 | `isend` succeeds iff the start succeeds and, for an owned datatype argument, its release does too. The logged call carries the datatype handle, and the by-value datatype is released iff it was owned. The new operation is active, the counter moves past it, and no operation completes. The datatype table keeps its counter; when it is coherent it stays so, and only an owned datatype's handle leaves the live set. |
| Comms.Irecv | lib/src/comm.cpp:90-108 | As `isend`, for MPI_Irecv. The same request, operation and datatype-table frame. |
| Comms.ConsumedDatatypeIsReleased | lib/header/communicators/comm.hpp:86-91 | An owned datatype passed to `isend` or `irecv` is released when the call returns, while the operation using it is still active. |
| Comms.IsendOf | lib/header/communicators/comm.hpp:92-111 | `isend<T>` succeeds iff MPI_Isend does. It returns the request of an MPI_Isend logged with the buffer, count, destination and tag and with the predefined constant of `T` as the datatype. Its local predefined datatype never touches the datatype table. The new operation is active, the counter moves past it, and no operation completes. |
| Comms.IrecvOf | lib/header/communicators/comm.hpp:118-137 | `irecv<T>` succeeds iff MPI_Irecv does. It returns the request of an MPI_Irecv logged with the buffer, count, source and tag and with the predefined constant of `T` as the datatype. Its local predefined datatype never touches the datatype table. The new operation is active, the counter moves past it, and no operation completes. |
| Comms.Ibarrier | lib/src/comm.cpp:130-138 | `ibarrier` succeeds iff MPI_Ibarrier does and returns the request of the logged barrier. The new operation is active, the counter moves past it, and no operation completes. |
| Comms.IbarrierThenWait | lib/src/comm.cpp:130-138 | Waiting on the request `ibarrier` returns completes exactly that barrier: the active set is back to what it was, the barrier is appended to the completion order, and the log shows the start then one MPI_Wait. The table stays coherent. |
| Comms.IbcastValue | lib/header/communicators/comm.hpp:139-152 | A scalar broadcast sends count 1 of the predefined constant of its type. The new operation is active, the counter moves past it, and no operation completes. |
| Comms.Resize | lib/header/communicators/comm.hpp:162-165 | `resize(n)` gives length n, keeps the common prefix and pads with NUL characters. |
| Comms.IbcastString | lib/header/communicators/comm.hpp:154-170 | The string broadcast succeeds iff all five native calls do. The root's string is unchanged; any other participant's string is resized to the length it received. The log shows the length broadcast, its wait, then the payload broadcast of exactly the string's length. The returned request holds the payload operation only. |
| Comms.StringBroadcastAgrees | mpicpp.hpp:269-285 | The root and any other participant end with strings of the root's length and start payload broadcasts of the same count, whatever the other string held. |
| Environment.Construct | lib/src/environment.cpp:7-15 | The constructor succeeds iff the query succeeds and, when not yet initialized, MPI_Init does. It calls MPI_Init iff the runtime reported not initialized, and leaves the runtime initialized. |
| Environment.Destruct | lib/src/environment.cpp:17-25 | The destructor succeeds iff the query succeeds and, when not yet finalized, MPI_Finalize does. It calls MPI_Finalize iff the runtime reported not finalized, and leaves the runtime finalized. |
| Environment.StepGuards | mpicpp.hpp:408-421 | Creating or destroying one guard keeps the runtime's rules and the count of live guards. |
| Environment.RunGuards | mpicpp.cpp:422-436 | Over any nesting of guards and any runtime answers, MPI_Init and MPI_Finalize are each called at most once, and only when the runtime allows it. |
| Environment.TwoGuards | lib/src/environment.cpp:7-25 | With two guards, nested or one after the other, init runs once and finalize runs once. |
| Environment.NoInitAfterFinalize | mpicpp.cpp:422-428 | A guard created after finalization only queries: it never calls MPI_Init again, and its destructor changes nothing. |

## Left out

- MPI semantics. Message delivery, reduction results, split grouping and the
  Cartesian rank and coordinate arithmetic belong to the library. A native
  call is a status code plus a fresh, completed or released handle.
- The marshalling collectives `iscatterv`, `igather`, `igatherv` and `exscan`,
  and the vector and array `ibcast` overloads, only forward pointers and
  counts. Only the scalar and string `ibcast` are modelled.
- `cart_get` and `cart_coords` write arrays the library fills in. The model
  has no arrays of answers, so they are not modelled. Their error path is
  the one `Comms.Ask` models.
- `op::create`'s user function and `commute` flag are passed through and not
  interpreted. `argc` and `argv` for MPI_Init are not interpreted either.
- The communicator a call is made on is not recorded in the logged
  operation, since the model of a call does not depend on it.
- `waitall` reads `&array[0].get()` as an `MPI_Request*`. That relies on a
  request holding nothing but its handle. The model takes the batch as a
  sequence of requests, and that layout assumption is not modelled.
- Requests.WaitAll: on failure MPI_Waitall may have completed some of the
  requests. The model only says that one exception stands for the whole
  batch and keeps nothing of the partial progress. The count is a `nat`: the
  source passes a negative `int` count on to MPI_Waitall, which rejects it,
  so `handle_error` throws; that rejection is not modelled.
- Errors.CodeMessage: `exception(int)` ignores the status MPI_Error_string
  returns, so after a failing call `resultlen` may be uninitialized and the
  terminator written anywhere. The model makes the library's text total and
  puts `0 <= resultlen < MPI_MAX_ERROR_STRING` in its type, so that failure
  is not modelled.
- HandleScope.ExecuteKeepsValid: the block theorem covers the corrected
  factories only. The factories as written break it for an excluded process;
  see `Comms.AsWrittenBreaksScope` and `Comms.AsWrittenOwnsNullComm`.
- Comms.Isend: when the start fails, the exception unwinds through the
  by-value datatype parameter, whose destructor still runs. The model
  reports the start's exception and keeps the tables from before the call.
- Comms.Irecv: the same unwinding of the by-value datatype is not modelled.
- Comms.IbcastString: the root converts its string's `size()` to `int`. The
  model requires the length to fit in an `int` at the root. It does not model
  the implementation-defined conversion of a longer string.
- Exceptions from a destructor end the program. The model reports them as
  an `Err`, and `RequestScope.LeaveBlock` and `HandleScope.LeaveBlock` stop
  there.
- Build-level differences are not behaviour and are not modelled:
  - `mpicpp.cpp` defines no `ibarrier`, `split_type` or `predefined_bool`,
    although `mpicpp.hpp` maps `bool` to `predefined_bool`.
  - `lib/header/mpienv/environment.hpp:12` declares the constructor as
    `(int&, char**&)`, while `lib/src/environment.cpp:7` defines
    `(int*, char***)`.
  - The namespaces `mpicpp` and `mpicxx` are mixed across files.
  - The messages of the request copy constructor and copy assignment name
    `mpicxx::request` in `lib/` (`lib/src/request.cpp:12`,
    `lib/src/request.cpp:21`) and `mpicpp::request` in `mpicpp.cpp`
    (`mpicpp.cpp:43` for copy assignment). The model uses the `lib/` texts.
- Blocking, time and concurrency: `wait` is a state change.
- The floating-point sum in `examples/main.cpp` is not modelled.

## Findings

| source | as written | input that shows it | evidently intended | confidence | as-written member | corrected member |
|---|---|---|---|---|---|---|
| lib/src/comm.cpp:149 | `split`, `split_type` and `cart_create` return `comm(new_implementation, true)` whatever MPI returned | `split` with color MPI_UNDEFINED, or `cart_create` on a process outside the grid: MPI returns MPI_COMM_NULL and the wrapper owns it, so its destructor calls MPI_Comm_free on MPI_COMM_NULL, which is erroneous. Under the default handler MPI_ERRORS_ARE_FATAL the library aborts inside that call; under MPI_ERRORS_RETURN `handle_error` throws out of the destructor and std::terminate ends the program | own the result only when it is not MPI_COMM_NULL | not executed | Comms.AsWrittenOwnsNullComm | Comms.ExcludedCommIsInert |
