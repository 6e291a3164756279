/** The `comm` wrapper over MPI_Comm: the predefined communicators, the
    creating factories, the integer queries, and the calls that start a
    non-blocking operation and hand back a `request`.

    A communicator is an owned handle (see `OwnedHandle`). `world()` and
    `self()` wrap library constants and own nothing. `dup`, `split`,
    `split_type` and `cart_create` wrap the handle the library created with the
    ownership flag set. MPI answers `split` and `split_type` with MPI_COMM_NULL
    for a process whose color (or split type) is MPI_UNDEFINED (section 6.4.2 of
    the MPI-3.1 standard), and `cart_create` with MPI_COMM_NULL for a process
    outside the grid (section 7.5.1); the source sets the flag for that handle
    too, so its destructor then hands MPI_COMM_NULL to MPI_Comm_free.
    `CreateAsWritten` keeps that behaviour and `Create` owns only run-time
    handles.
 */
module Comms {
  import opened Errors
  import opened OwnedHandle
  import D = Datatypes
  import R = ReductionOps
  import Rq = Requests
  import HandleScope

  /** The predefined communicators. */
  datatype Tag = CommWorld | CommSelf

  /** The wrapper object. */
  type Comm = Owned<Tag>

  /** `world()`: MPI_COMM_WORLD, not owned. */
  function World(): Comm
  {
    Owned(Builtin(CommWorld), false)
  }

  /** `self()`: MPI_COMM_SELF, not owned. */
  function Self(): Comm
  {
    Owned(Builtin(CommSelf), false)
  }

  /** The predefined communicators are distinct constants and inert: neither
      counts as owning a run-time handle, and destroying either makes no native
      call whatever the library would answer. */
  lemma PredefinedCommsAreInert(pool: Pool<Tag>, lib: ErrorStrings, code: int)
    ensures Get(World()) == Builtin(CommWorld) && Get(Self()) == Builtin(CommSelf)
    ensures Get(World()) != Get(Self())
    ensures IdOf(World()) == {} && IdOf(Self()) == {}
    ensures Destroy(World(), pool, lib, code) == Ok(pool)
    ensures Destroy(Self(), pool, lib, code) == Ok(pool)
  {
  }

  // ---------------------------------------------------------------------------
  // Creating factories.

  /** The creating calls and the arguments they forward to the library. */
  datatype Creation =
    | Dup                                                    // MPI_Comm_dup
    | Split(color: int, key: int)                            // MPI_Comm_split
    | SplitType(splitType: int, key: int, info: int)         // MPI_Comm_split_type
    | CartCreate(dims: seq<int>, periods: seq<int>, reorder: int) // MPI_Cart_create

  /** Whether the library may answer the call with MPI_COMM_NULL on this
      process; MPI_Comm_dup always returns a new communicator. */
  predicate MayReturnNull(how: Creation)
  {
    !how.Dup?
  }

  /** What a creating call does to the communicator table: nothing when the
      library returned MPI_COMM_NULL; otherwise the new wrapper holds the next
      handle, which becomes live, and every other handle and the release log
      are kept. */
  predicate NewCommTable(pool: Pool<Tag>, w: Comm, pool': Pool<Tag>)
  {
    if w.handle == NullHandle then pool' == pool
    else w.handle == Created(pool.next) && pool' == Pool(pool.live + {pool.next}, pool.next + 1, pool.released)
  }

  /** The factories as written: `comm(new_implementation, true)`, whatever the
      library returned. `excluded` says that the library returned
      MPI_COMM_NULL to this process. */
  function CreateAsWritten(how: Creation, pool: Pool<Tag>, excluded: bool, lib: ErrorStrings, code: int)
    : (r: Result<(Comm, Pool<Tag>)>)
    ensures r.Ok? <==> code == SUCCESS
    ensures r.Ok? ==> r.value.0.owned
    ensures r.Ok? ==> (r.value.0.handle == NullHandle <==> excluded && MayReturnNull(how))
    ensures r.Ok? ==> NewCommTable(pool, r.value.0, r.value.1)
  {
    var (h, pool') :- NativeCreate(pool, excluded && MayReturnNull(how), lib, code);
    Ok((Owned(h, true), pool'))
  }

  /** The factories with the ownership flag set only for a handle the library
      created: a process left out of the new communicator gets the default
      wrapper. */
  function Create(how: Creation, pool: Pool<Tag>, excluded: bool, lib: ErrorStrings, code: int)
    : (r: Result<(Comm, Pool<Tag>)>)
    ensures r.Ok? <==> code == SUCCESS
    ensures r.Ok? ==> (r.value.0.owned <==> r.value.0.handle != NullHandle)
    ensures r.Ok? ==> (r.value.0.handle == NullHandle <==> excluded && MayReturnNull(how))
    ensures r.Ok? && how.Dup? ==> r.value.0 == Owned(Created(pool.next), true)
    ensures r.Ok? ==> NewCommTable(pool, r.value.0, r.value.1)
    ensures r.Ok? && pool.Valid() ==> r.value.1.Valid() && Sound(r.value.0, r.value.1)
  {
    Acquire(pool, excluded && MayReturnNull(how), lib, code)
  }

  /** Wherever the library returns a real communicator, the corrected factories
      do exactly what the written ones do; in particular `dup` is unchanged. */
  lemma CreateMatchesAsWritten(how: Creation, pool: Pool<Tag>, excluded: bool, lib: ErrorStrings, code: int)
    requires !excluded || how.Dup?
    ensures Create(how, pool, excluded, lib, code) == CreateAsWritten(how, pool, excluded, lib, code)
  {
  }

  /** The defect as written: a process that `split` (color MPI_UNDEFINED),
      `split_type` (MPI_UNDEFINED) or `cart_create` (outside the grid) leaves out
      holds an owning wrapper of MPI_COMM_NULL. Its destructor calls
      MPI_Comm_free on it: if the library rejects that, the destructor throws
      and the program ends; if it accepts it, the release log names the null
      handle, which the library never created. */
  lemma AsWrittenOwnsNullComm(how: Creation, pool: Pool<Tag>, lib: ErrorStrings, code: int)
    requires MayReturnNull(how) && pool.Valid()
    ensures CreateAsWritten(how, pool, true, lib, SUCCESS) == Ok((Owned(NullHandle, true), pool))
    ensures !Sound(Owned(NullHandle, true), pool)
    ensures code != SUCCESS ==> Destroy(Owned(NullHandle, true), pool, lib, code).Err?
    ensures code == SUCCESS ==>
      && Destroy(Owned(NullHandle, true), pool, lib, code).Ok?
      && Destroy(Owned(NullHandle, true), pool, lib, code).value.released == pool.released + [NullHandle]
      && !Destroy(Owned(NullHandle, true), pool, lib, code).value.Valid()
  {
    var released := pool.released + [NullHandle];
    assert released[|released| - 1] == NullHandle;
  }

  /** The factories as written break the block-level ownership invariant: a
      block that keeps it no longer does once an excluded process declares the
      wrapper `split`, `split_type` or `cart_create` returned, because that
      wrapper owns a handle that is not a run-time handle. The corrected
      factory keeps it. */
  lemma AsWrittenBreaksScope(s: HandleScope.Scope<Tag>, how: Creation, lib: ErrorStrings)
    requires HandleScope.Valid(s) && MayReturnNull(how)
    ensures var (w, pool') := CreateAsWritten(how, s.pool, true, lib, SUCCESS).value;
      !HandleScope.Valid(HandleScope.Scope(s.slots + [w], pool'))
    ensures var (w, pool') := Create(how, s.pool, true, lib, SUCCESS).value;
      HandleScope.Valid(HandleScope.Scope(s.slots + [w], pool'))
  {
    var (w, pool') := CreateAsWritten(how, s.pool, true, lib, SUCCESS).value;
    assert (s.slots + [w])[|s.slots|] == w;
    var corrected := Create(how, s.pool, true, lib, SUCCESS).value;
    HandleScope.ApplyKeepsValid(s, HandleScope.DeclareAcquired(true, SUCCESS), lib);
  }

  /** The corrected factories leave an excluded process with an inert wrapper:
      no release, whatever the library would answer, and the library's table
      is untouched. */
  lemma ExcludedCommIsInert(how: Creation, pool: Pool<Tag>, lib: ErrorStrings, code: int)
    requires MayReturnNull(how)
    ensures Create(how, pool, true, lib, SUCCESS) == Ok((Default(), pool))
    ensures Destroy(Default<Tag>(), pool, lib, code) == Ok(pool)
  {
  }

  // ---------------------------------------------------------------------------
  // Queries.

  /** The integer queries. */
  datatype Query = Size | Rank | Cartdim | CartRank(coords: seq<int>)

  /** `size()`, `rank()`, `cartdim_get()` and `cart_rank(coords)`: the
      library's answer is returned only when its status is success; otherwise
      the exception takes its place. */
  function Ask(c: Comm, q: Query, lib: ErrorStrings, code: int, answer: int): (r: Result<int>)
    ensures r.Ok? <==> code == SUCCESS
    ensures r.Ok? ==> r.value == answer
    ensures r.Err? ==> r.failure == FromCode(lib, code) && r.failure.MpiException?
  {
    var o := HandleError(lib, code);
    if o.Fail? then Err(o.failure) else Ok(answer)
  }

  /** A failed query never exposes the library's answer, whatever it was, and
      what the caller reads from the exception is the start of the library's
      text for the code, cut at its first NUL. */
  lemma AskFailureHidesAnswer(c: Comm, q: Query, lib: ErrorStrings, code: int, answer: int, other: int)
    requires code != SUCCESS
    ensures Ask(c, q, lib, code, answer) == Ask(c, q, lib, code, other)
    ensures var m := Ask(c, q, lib, code, answer).failure.What();
      && m == lib(code).buffer[..|m|]
      && '\0' !in m
      && (|m| < lib(code).resultlen ==> lib(code).buffer[|m|] == '\0')
  {
    HandleErrorMessage(lib, code);
  }

  // ---------------------------------------------------------------------------
  // Calls that start a non-blocking operation.

  /** `iallreduce(sendbuf, recvbuf, count, datatype const&, op const&)`: both
      objects are borrowed, and the request holds the operation the call
      started. */
  function Iallreduce(c: Comm, send: nat, recv: nat, count: int, dtype: D.Datatype, op: R.Op,
                      e: Rq.Engine, lib: ErrorStrings, code: int)
    : (r: Result<(Rq.Request, Rq.Engine)>)
    ensures r.Ok? <==> code == SUCCESS
    ensures r.Ok? ==> r.value.0 == Rq.Pending(e.next)
    ensures r.Ok? ==>
      r.value.1.calls == e.calls + [Rq.Started(e.next, Rq.Iallreduce(Rq.At(send), Rq.At(recv), count, Get(dtype), Get(op)))]
    ensures r.Ok? ==> Rq.StartsOne(e, r.value.1)
  {
    Rq.Start(e, Rq.Iallreduce(Rq.At(send), Rq.At(recv), count, Get(dtype), Get(op)), lib, code)
  }

  /** The template `iallreduce<T>(sendbuf, recvbuf, count, op)`: the datatype
      is `predefined_datatype<T>()`. */
  function IallreduceOf(c: Comm, send: nat, recv: nat, count: int, t: D.Scalar, op: R.Op,
                        e: Rq.Engine, lib: ErrorStrings, code: int)
    : (r: Result<(Rq.Request, Rq.Engine)>)
    ensures r.Ok? <==> code == SUCCESS
    ensures r.Ok? ==> r.value.0 == Rq.Pending(e.next)
    ensures r.Ok? ==>
      r.value.1.calls == e.calls + [Rq.Started(e.next, Rq.Iallreduce(Rq.At(send), Rq.At(recv), count, Builtin(D.TagOf(t)), Get(op)))]
    ensures r.Ok? ==> Rq.StartsOne(e, r.value.1)
  {
    Iallreduce(c, send, recv, count, D.PredefinedDatatype(t), op, e, lib, code)
  }

  /** The template `iallreduce<T>(buf, count, op)`: MPI_IN_PLACE as the send
      buffer and the one buffer as the receive buffer. */
  function IallreduceInPlace(c: Comm, buf: nat, count: int, t: D.Scalar, op: R.Op,
                             e: Rq.Engine, lib: ErrorStrings, code: int)
    : (r: Result<(Rq.Request, Rq.Engine)>)
    ensures r.Ok? <==> code == SUCCESS
    ensures r.Ok? ==> r.value.0 == Rq.Pending(e.next)
    ensures r.Ok? ==>
      r.value.1.calls == e.calls + [Rq.Started(e.next, Rq.Iallreduce(Rq.InPlace, Rq.At(buf), count, Builtin(D.TagOf(t)), Get(op)))]
    ensures r.Ok? ==> Rq.StartsOne(e, r.value.1)
  {
    Rq.Start(e, Rq.Iallreduce(Rq.InPlace, Rq.At(buf), count, Get(D.PredefinedDatatype(t)), Get(op)), lib, code)
  }

  /** `isend(buf, count, datatype, dest, tag)` and `irecv(...)`: the datatype
      parameter is taken by value, so the caller's object is moved into it and
      the parameter is destroyed when the call returns, after the operation has
      started. */
  function StartConsuming(call: Rq.Operation, dtype: D.Datatype, dpool: Pool<D.Tag>,
                          e: Rq.Engine, lib: ErrorStrings, code: int, freeCode: int)
    : (r: Result<(Rq.Request, Rq.Engine, Pool<D.Tag>)>)
    ensures r.Ok? <==> code == SUCCESS && (dtype.owned ==> freeCode == SUCCESS)
    ensures r.Ok? ==> r.value.0 == Rq.Pending(e.next) && r.value.1.calls == e.calls + [Rq.Started(e.next, call)]
    ensures r.Ok? ==> r.value.2.released == dpool.released + (if dtype.owned then [Get(dtype)] else [])
    ensures r.Ok? ==> Rq.StartsOne(e, r.value.1) && r.value.2.next == dpool.next
    ensures r.Ok? && dpool.Valid() && Sound(dtype, dpool) ==> r.value.2.Valid() && r.value.2.live == dpool.live - IdOf(dtype)
    ensures r.Ok? && e.Valid() ==> e.next in r.value.1.active
  {
    var (req, e') :- Rq.Start(e, call, lib, code);
    var dpool' :- Destroy(dtype, dpool, lib, freeCode);
    Ok((req, e', dpool'))
  }

  /** `isend(buf, count, datatype, dest, tag)`. */
  function Isend(c: Comm, buf: nat, count: int, dtype: D.Datatype, dest: int, tag: int, dpool: Pool<D.Tag>,
                 e: Rq.Engine, lib: ErrorStrings, code: int, freeCode: int)
    : (r: Result<(Rq.Request, Rq.Engine, Pool<D.Tag>)>)
    ensures r.Ok? <==> code == SUCCESS && (dtype.owned ==> freeCode == SUCCESS)
    ensures r.Ok? ==> r.value.0 == Rq.Pending(e.next)
    ensures r.Ok? ==> r.value.1.calls == e.calls + [Rq.Started(e.next, Rq.Isend(buf, count, Get(dtype), dest, tag))]
    ensures r.Ok? ==> r.value.2.released == dpool.released + (if dtype.owned then [Get(dtype)] else [])
    ensures r.Ok? ==> Rq.StartsOne(e, r.value.1) && r.value.2.next == dpool.next
    ensures r.Ok? && dpool.Valid() && Sound(dtype, dpool) ==> r.value.2.Valid() && r.value.2.live == dpool.live - IdOf(dtype)
  {
    StartConsuming(Rq.Isend(buf, count, Get(dtype), dest, tag), dtype, dpool, e, lib, code, freeCode)
  }

  /** `irecv(buf, count, datatype, source, tag)`. */
  function Irecv(c: Comm, buf: nat, count: int, dtype: D.Datatype, source: int, tag: int, dpool: Pool<D.Tag>,
                 e: Rq.Engine, lib: ErrorStrings, code: int, freeCode: int)
    : (r: Result<(Rq.Request, Rq.Engine, Pool<D.Tag>)>)
    ensures r.Ok? <==> code == SUCCESS && (dtype.owned ==> freeCode == SUCCESS)
    ensures r.Ok? ==> r.value.0 == Rq.Pending(e.next)
    ensures r.Ok? ==> r.value.1.calls == e.calls + [Rq.Started(e.next, Rq.Irecv(buf, count, Get(dtype), source, tag))]
    ensures r.Ok? ==> r.value.2.released == dpool.released + (if dtype.owned then [Get(dtype)] else [])
    ensures r.Ok? ==> Rq.StartsOne(e, r.value.1) && r.value.2.next == dpool.next
    ensures r.Ok? && dpool.Valid() && Sound(dtype, dpool) ==> r.value.2.Valid() && r.value.2.live == dpool.live - IdOf(dtype)
  {
    StartConsuming(Rq.Irecv(buf, count, Get(dtype), source, tag), dtype, dpool, e, lib, code, freeCode)
  }

  /** An owned datatype moved into `isend` or `irecv` is released when the call
      returns, while the operation that uses it is still pending (MPI allows
      this: section 4.1.9 of the MPI-3.1 standard). A caller that wants to keep
      the datatype cannot pass it at all, since copying is deleted. */
  lemma ConsumedDatatypeIsReleased(call: Rq.Operation, dtype: D.Datatype, dpool: Pool<D.Tag>,
                                   e: Rq.Engine, lib: ErrorStrings)
    requires dtype.owned && Sound(dtype, dpool) && dpool.Valid() && e.Valid()
    ensures var r := StartConsuming(call, dtype, dpool, e, lib, SUCCESS, SUCCESS);
      && r.Ok?
      && r.value.0.Pending? && r.value.0.id in r.value.1.active
      && Get(dtype).id !in r.value.2.live
      && r.value.2.released == dpool.released + [Get(dtype)]
      && r.value.2.Valid()
  {
  }

  /** The templates `isend<T>` and `irecv<T>`: the datatype is a local
      `predefined_datatype<T>()`, whose destruction makes no native call. */
  function IsendOf(c: Comm, buf: nat, count: int, t: D.Scalar, dest: int, tag: int, dpool: Pool<D.Tag>,
                   e: Rq.Engine, lib: ErrorStrings, code: int, freeCode: int)
    : (r: Result<(Rq.Request, Rq.Engine, Pool<D.Tag>)>)
    ensures r.Ok? <==> code == SUCCESS
    ensures r.Ok? ==> r.value.0 == Rq.Pending(e.next)
    ensures r.Ok? ==> r.value.1.calls == e.calls + [Rq.Started(e.next, Rq.Isend(buf, count, Builtin(D.TagOf(t)), dest, tag))]
    ensures r.Ok? ==> Rq.StartsOne(e, r.value.1)
    ensures r.Ok? ==> r.value.2 == dpool
  {
    Isend(c, buf, count, D.PredefinedDatatype(t), dest, tag, dpool, e, lib, code, freeCode)
  }

  function IrecvOf(c: Comm, buf: nat, count: int, t: D.Scalar, source: int, tag: int, dpool: Pool<D.Tag>,
                   e: Rq.Engine, lib: ErrorStrings, code: int, freeCode: int)
    : (r: Result<(Rq.Request, Rq.Engine, Pool<D.Tag>)>)
    ensures r.Ok? <==> code == SUCCESS
    ensures r.Ok? ==> r.value.0 == Rq.Pending(e.next)
    ensures r.Ok? ==> r.value.1.calls == e.calls + [Rq.Started(e.next, Rq.Irecv(buf, count, Builtin(D.TagOf(t)), source, tag))]
    ensures r.Ok? ==> Rq.StartsOne(e, r.value.1)
    ensures r.Ok? ==> r.value.2 == dpool
  {
    Irecv(c, buf, count, D.PredefinedDatatype(t), source, tag, dpool, e, lib, code, freeCode)
  }

  /** `ibarrier()`. */
  function Ibarrier(c: Comm, e: Rq.Engine, lib: ErrorStrings, code: int): (r: Result<(Rq.Request, Rq.Engine)>)
    ensures r.Ok? <==> code == SUCCESS
    ensures r.Ok? ==> r.value.0 == Rq.Pending(e.next) && r.value.1.calls == e.calls + [Rq.Started(e.next, Rq.Ibarrier)]
    ensures r.Ok? ==> Rq.StartsOne(e, r.value.1)
  {
    Rq.Start(e, Rq.Ibarrier, lib, code)
  }

  /** A started operation is completed by waiting on the request it returns:
      `ibarrier()` followed by `wait()` completes exactly that barrier and
      leaves the other active operations as they were. */
  lemma IbarrierThenWait(c: Comm, e: Rq.Engine, lib: ErrorStrings)
    requires e.Valid()
    ensures Ibarrier(c, e, lib, SUCCESS).Ok?
    ensures var (req, e1) := Ibarrier(c, e, lib, SUCCESS).value;
      var w := Rq.Wait(req, e1, lib, SUCCESS);
      && w.Ok?
      && w.value.1.Valid()
      && w.value.1.active == e.active
      && w.value.1.completed == e.completed + [e.next]
      && w.value.1.calls == e.calls + [Rq.Started(e.next, Rq.Ibarrier), Rq.Waited(e.next)]
  {
    var (req, e1) := Ibarrier(c, e, lib, SUCCESS).value;
    assert e.next !in e.active;
  }

  /** The template `ibcast<VT>(buffer, root)` on one scalar: count 1 of
      `predefined_datatype<VT>()`. */
  function IbcastValue(c: Comm, at: nat, t: D.Scalar, root: int, e: Rq.Engine, lib: ErrorStrings, code: int)
    : (r: Result<(Rq.Request, Rq.Engine)>)
    ensures r.Ok? <==> code == SUCCESS
    ensures r.Ok? ==> r.value.0 == Rq.Pending(e.next)
    ensures r.Ok? ==> r.value.1.calls == e.calls + [Rq.Started(e.next, Rq.Ibcast(at, 1, Builtin(D.TagOf(t)), root))]
    ensures r.Ok? ==> Rq.StartsOne(e, r.value.1)
  {
    Rq.Start(e, Rq.Ibcast(at, 1, Get(D.PredefinedDatatype(t)), root), lib, code)
  }

  // ---------------------------------------------------------------------------
  // Broadcasting a string.

  /** The largest value of a C++ `int`. */
  const INT_MAX: int := 0x7fff_ffff

  /** `std::string::resize(n)`: truncate, or pad with NUL characters. */
  function Resize(s: string, n: nat): (r: string)
    ensures |r| == n
    ensures forall i :: 0 <= i < n && i < |s| ==> r[i] == s[i]
    ensures forall i :: |s| <= i < n ==> r[i] == '\0'
  {
    if n <= |s| then s[..n] else s + seq(n - |s|, _ => '\0')
  }

  /** The status codes of the native calls `ibcast(std::string&, root)` makes,
      in order. */
  datatype BcastCodes = BcastCodes(rank: int, lengthStart: int, lengthWait: int, rankAgain: int, payloadStart: int)
  {
    predicate AllSucceed() {
      rank == SUCCESS && lengthStart == SUCCESS && lengthWait == SUCCESS
      && rankAgain == SUCCESS && payloadStart == SUCCESS
    }
  }

  /** One participant after `ibcast(std::string&, root)`: its string, the count
      of the payload broadcast, the request returned, and the library. */
  datatype StringBcast = StringBcast(buffer: string, count: int, request: Rq.Request, engine: Rq.Engine)

  /** The length broadcast: one `int` from the local `size` variable. */
  function LengthCall(sizeAt: nat, root: int): Rq.Operation
  {
    Rq.Ibcast(sizeAt, 1, Builtin(D.TagOf(D.CxxInt)), root)
  }

  /** The payload broadcast: `count` characters from the string's storage. */
  function PayloadCall(dataAt: nat, count: int, root: int): Rq.Operation
  {
    Rq.Ibcast(dataAt, count, Builtin(D.Char), root)
  }

  /** `ibcast(std::string& buffer, root)` on the participant of rank `myRank`.
      The root reads its string's length; the length is broadcast and, because
      the returned request is a discarded temporary, waited for at once; a
      non-root participant then resizes its string to the length it received
      (`delivered`, the root's length under MPI's broadcast semantics); finally
      the payload broadcast starts and its request is returned. The root's
      length is converted to `int`, which is exact only up to INT_MAX. */
  function IbcastString(c: Comm, buffer: string, root: int, myRank: int, delivered: nat, sizeAt: nat, dataAt: nat,
                        e: Rq.Engine, lib: ErrorStrings, codes: BcastCodes)
    : (r: Result<StringBcast>)
    requires myRank == root ==> |buffer| <= INT_MAX
    ensures r.Ok? <==> codes.AllSucceed()
    ensures r.Ok? ==> r.value.count == |r.value.buffer|
    ensures r.Ok? && myRank == root ==> r.value.buffer == buffer
    ensures r.Ok? && myRank != root ==> r.value.buffer == Resize(buffer, delivered)
    ensures r.Ok? ==> r.value.request == Rq.Pending(e.next + 1)
    ensures r.Ok? ==> r.value.engine.calls == e.calls + [
      Rq.Started(e.next, LengthCall(sizeAt, root)),
      Rq.Waited(e.next),
      Rq.Started(e.next + 1, PayloadCall(dataAt, r.value.count, root))]
    ensures r.Ok? && e.Valid() ==>
      && r.value.engine.Valid()
      && r.value.engine.active == e.active + {e.next + 1}
      && r.value.engine.completed == e.completed + [e.next]
  {
    var rank :- Ask(c, Rank, lib, codes.rank, myRank);
    var size: int := if rank == root then |buffer| else delivered;
    var (lengthRequest, e1) :- IbcastValue(c, sizeAt, D.CxxInt, root, e, lib, codes.lengthStart);
    var e2 :- Rq.Destroy(lengthRequest, e1, lib, codes.lengthWait);
    var rankAgain :- Ask(c, Rank, lib, codes.rankAgain, myRank);
    var resized := if rankAgain != root then Resize(buffer, size) else buffer;
    var (payload, e3) :- Rq.Start(e2, PayloadCall(dataAt, size, root), lib, codes.payloadStart);
    Ok(StringBcast(resized, size, payload, e3))
  }

  /** Every participant broadcasts the root's length: after the call the root
      and any other participant hold strings of the root's length and start
      payload broadcasts of the same count, whatever the other participant's
      string held before. */
  lemma StringBroadcastAgrees(c: Comm, rootBuffer: string, other: string, root: int, peer: int,
                              sizeAt: nat, dataAt: nat, e: Rq.Engine, e': Rq.Engine, lib: ErrorStrings,
                              codes: BcastCodes, codes': BcastCodes)
    requires peer != root && |rootBuffer| <= INT_MAX
    requires codes.AllSucceed() && codes'.AllSucceed()
    ensures var atRoot := IbcastString(c, rootBuffer, root, root, 0, sizeAt, dataAt, e, lib, codes);
      var atPeer := IbcastString(c, other, root, peer, |rootBuffer|, sizeAt, dataAt, e', lib, codes');
      && atRoot.Ok? && atPeer.Ok?
      && atRoot.value.count == atPeer.value.count == |rootBuffer|
      && |atPeer.value.buffer| == |rootBuffer|
      && atRoot.value.buffer == rootBuffer
  {
  }
}
