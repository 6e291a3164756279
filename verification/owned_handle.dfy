/** The owned-handle pattern, written once for the three wrapper classes that
    use it: `comm`, `datatype` and `op`.

    A wrapper is a pair (native handle, owned flag). The default wrapper holds
    the kind's null handle and owns nothing; a library constant is wrapped with
    the flag cleared; a handle the library created at run time is wrapped with
    the flag set. Moving transfers the pair and resets the source to the
    default; move assignment first releases what the target owns; the destructor
    releases the handle iff the flag is set. Copying is deleted in the source,
    so the model offers no copy operation.

    The native library is modelled abstractly by a `Pool`: the run-time handles
    that are still live, the number of handles created so far, and the log of
    successful release calls.
 */
module OwnedHandle {
  import opened Errors

  /** An opaque native handle of one kind: the kind's null handle
      (MPI_COMM_NULL, MPI_DATATYPE_NULL, MPI_OP_NULL), one of the library's
      predefined constants, or a handle created at run time, identified by its
      creation number. */
  datatype Handle<P> = NullHandle | Builtin(tag: P) | Created(id: nat)

  /** The wrapper object: the native handle and whether this object must
      release it. */
  datatype Owned<P> = Owned(handle: Handle<P>, owned: bool)

  /** The library's table for one handle kind. */
  datatype Pool<P(==)> = Pool(live: set<nat>, next: nat, released: seq<Handle<P>>) {

    /** The library's bookkeeping is coherent: live handles were created, and
        every release was of a distinct run-time handle that is no longer live.
        The last conjunct is "each handle is released at most once". */
    predicate Valid() {
      && (forall id :: id in live ==> id < next)
      && (forall i :: 0 <= i < |released| ==>
            released[i].Created? && released[i].id < next && released[i].id !in live)
      && (forall i, j :: 0 <= i < j < |released| ==> released[i] != released[j])
    }
  }

  /** The default constructor: the null handle, owning nothing. */
  function Default<P>(): Owned<P>
  {
    Owned(NullHandle, false)
  }

  /** `get()`: the stored handle; ownership is untouched. */
  function Get<P>(w: Owned<P>): Handle<P>
  {
    w.handle
  }

  /** The run-time handle a wrapper is responsible for, if any. */
  function IdOf<P>(w: Owned<P>): set<nat>
  {
    if w.owned && w.handle.Created? then {w.handle.id} else {}
  }

  /** A wrapper that owns something owns a live run-time handle. */
  predicate Sound<P(==)>(w: Owned<P>, pool: Pool<P>)
  {
    w.owned ==> w.handle.Created? && w.handle.id in pool.live
  }

  /** A creating native call (MPI_Comm_dup, MPI_Comm_split, MPI_Op_create, ...)
      with status `code`. On success the library hands out a fresh live handle,
      or, when `excluded` holds, the null handle: MPI_Comm_split with color
      MPI_UNDEFINED and MPI_Cart_create on a process outside the grid do that. */
  function NativeCreate<P(==)>(pool: Pool<P>, excluded: bool, lib: ErrorStrings, code: int)
    : (r: Result<(Handle<P>, Pool<P>)>)
    ensures r.Ok? <==> code == SUCCESS
    ensures r.Ok? && excluded ==> r.value == (NullHandle, pool)
    ensures r.Ok? && !excluded ==>
      && r.value.0 == Created(pool.next)
      && r.value.1 == Pool(pool.live + {pool.next}, pool.next + 1, pool.released)
    ensures r.Ok? && pool.Valid() ==> r.value.1.Valid()
  {
    var o := HandleError(lib, code);
    if o.Fail? then Err(o.failure)
    else if excluded then Ok((NullHandle, pool))
    else Ok((Created(pool.next), Pool(pool.live + {pool.next}, pool.next + 1, pool.released)))
  }

  /** MPI_Comm_free, MPI_Type_free or MPI_Op_free with status `code`. On success
      the resource is released, which the log records, and the library writes
      the null handle back into the caller's variable. */
  function NativeFree<P(==)>(pool: Pool<P>, h: Handle<P>, lib: ErrorStrings, code: int): Result<Pool<P>>
  {
    var o := HandleError(lib, code);
    if o.Fail? then Err(o.failure)
    else Ok(Pool(if h.Created? then pool.live - {h.id} else pool.live, pool.next, pool.released + [h]))
  }

  /** The destructor: releases the handle iff the wrapper owns it. Destructors
      cannot let an exception escape, so an `Err` here ends the program. */
  function Destroy<P(==)>(w: Owned<P>, pool: Pool<P>, lib: ErrorStrings, code: int): (r: Result<Pool<P>>)
    ensures r.Err? <==> w.owned && code != SUCCESS
    ensures r.Ok? ==> r.value.released == pool.released + (if w.owned then [w.handle] else [])
    ensures r.Ok? ==> r.value.next == pool.next
    ensures !w.owned ==> r == Ok(pool)
    ensures r.Ok? && pool.Valid() && Sound(w, pool) ==>
      r.value.Valid() && r.value.live == pool.live - IdOf(w)
  {
    if w.owned then NativeFree(pool, w.handle, lib, code) else Ok(pool)
  }

  /** A wrapper that owns nothing is destroyed without any native call, whatever
      the library would have answered. */
  lemma DestroyUnownedIsSilent<P>(w: Owned<P>, pool: Pool<P>, lib: ErrorStrings)
    requires !w.owned
    ensures forall code :: Destroy(w, pool, lib, code) == Ok(pool)
  {
  }

  /** The target and the source of a move, after it. */
  datatype Moved<P> = Moved(target: Owned<P>, source: Owned<P>)

  /** The move constructor: the new wrapper takes the pair and the source falls
      back to the default. It makes no native call and cannot fail. */
  function MoveConstruct<P>(source: Owned<P>): (m: Moved<P>)
    ensures m.target == source
    ensures m.source == Default()
  {
    Moved(source, Default())
  }

  /** Move assignment between two distinct wrappers: release what the target
      owns (here an exception propagates to the caller, and nothing has been
      moved yet), then take the source's pair and reset the source. */
  function MoveAssign<P(==)>(target: Owned<P>, source: Owned<P>, pool: Pool<P>, lib: ErrorStrings, code: int)
    : (r: Result<(Moved<P>, Pool<P>)>)
    ensures r.Err? <==> target.owned && code != SUCCESS
    ensures r.Ok? ==> r.value.0 == Moved(source, Default())
    ensures r.Ok? ==> Destroy(target, pool, lib, code) == Ok(r.value.1)
  {
    var released :- Destroy(target, pool, lib, code);
    Ok((Moved(source, Default()), released))
  }

  /** Moving keeps the ownership discipline of two distinct wrappers: after the
      move the target owns exactly what the source owned, the source owns
      nothing, and only the target's old handle has left the live set. */
  lemma MoveAssignKeepsOwnership<P>(target: Owned<P>, source: Owned<P>, pool: Pool<P>, lib: ErrorStrings, code: int)
    requires pool.Valid() && Sound(target, pool) && Sound(source, pool)
    requires target.owned && source.owned ==> target.handle != source.handle
    requires MoveAssign(target, source, pool, lib, code).Ok?
    ensures var (m, pool') := MoveAssign(target, source, pool, lib, code).value;
      && pool'.Valid()
      && pool'.live == pool.live - IdOf(target)
      && Sound(m.target, pool') && Sound(m.source, pool')
      && IdOf(m.target) == IdOf(source) && IdOf(m.source) == {}
  {
  }

  /** A moved-from wrapper is inert: destroying it makes no native call. */
  lemma MovedFromIsInert<P>(source: Owned<P>, pool: Pool<P>, lib: ErrorStrings, code: int)
    ensures Destroy(MoveConstruct(source).source, pool, lib, code) == Ok(pool)
  {
  }

  /** The wrapping the creating factories apply to a fresh handle: owned iff it
      is a run-time handle (the null handle is never owned). */
  function Adopt<P>(h: Handle<P>): (w: Owned<P>)
  {
    Owned(h, h.Created?)
  }

  /** A creating factory: the native creating call, then the wrapper that owns
      its result. On failure the exception leaves before any wrapper exists, so
      there is nothing to release. */
  function Acquire<P(==)>(pool: Pool<P>, excluded: bool, lib: ErrorStrings, code: int)
    : (r: Result<(Owned<P>, Pool<P>)>)
    ensures r.Ok? <==> code == SUCCESS
    ensures r.Ok? ==> (r.value.0.owned <==> !excluded)
    ensures r.Ok? && !excluded ==>
      && r.value.0 == Owned(Created(pool.next), true)
      && r.value.1 == Pool(pool.live + {pool.next}, pool.next + 1, pool.released)
    ensures r.Ok? && excluded ==> r.value.0 == Default() && r.value.1 == pool
    ensures r.Ok? && pool.Valid() ==> r.value.1.Valid() && Sound(r.value.0, r.value.1)
  {
    var (h, pool') :- NativeCreate(pool, excluded, lib, code);
    Ok((Adopt(h), pool'))
  }
}
