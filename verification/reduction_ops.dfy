/** The `op` wrapper over MPI_Op.

    A reduction operator is an owned handle (see `OwnedHandle`). Unlike the
    other two wrappers, its two-argument constructor sets the ownership flag by
    default, so a wrapper built from a handle alone owns it: that is how
    `create` marks the operator it registers, while the predefined operators
    pass the flag cleared explicitly.
 */
module ReductionOps {
  import opened Errors
  import opened OwnedHandle

  /** The predefined MPI_Op constants the factories wrap. */
  datatype Tag = Sum | Min | Max | Bor

  /** The wrapper object. */
  type Op = Owned<Tag>

  /** `op(MPI_Op implementation_in, bool owned_in = true)`. */
  function Wrap(h: Handle<Tag>, owned: bool := true): (o: Op)
    ensures Get(o) == h
  {
    Owned(h, owned)
  }

  /** A wrapper built from a handle alone owns it, so destroying it releases
      that handle, predefined constant or not; only an explicit `false` makes
      it inert. */
  lemma WrapOwnsByDefault(h: Handle<Tag>, pool: Pool<Tag>, lib: ErrorStrings)
    ensures Wrap(h).owned && !Wrap(h, false).owned
    ensures Destroy(Wrap(h), pool, lib, SUCCESS).Ok?
    ensures Destroy(Wrap(h), pool, lib, SUCCESS).value.released == pool.released + [h]
    ensures forall code :: Destroy(Wrap(h, false), pool, lib, code) == Ok(pool)
  {
  }

  /** `sum()`, `min()`, `max()` and `bor()`: the constant, explicitly not owned. */
  function Predefined(tag: Tag): (o: Op)
    ensures Get(o) == Builtin(tag)
    ensures forall pool: Pool<Tag>, lib, code :: Destroy(o, pool, lib, code) == Ok(pool)
  {
    Wrap(Builtin(tag), false)
  }

  /** `create(user_f, commute)`: MPI_Op_create registers a new operator and the
      wrapper built from its handle alone owns it. On failure the exception
      leaves before any wrapper exists. */
  function Create(pool: Pool<Tag>, lib: ErrorStrings, code: int): (r: Result<(Op, Pool<Tag>)>)
    ensures r.Ok? <==> code == SUCCESS
    ensures r.Ok? ==> r.value.0 == Owned(Created(pool.next), true)
    ensures r.Ok? ==> r.value.1.live == pool.live + {pool.next}
    ensures r.Ok? && pool.Valid() ==> r.value.1.Valid() && Sound(r.value.0, r.value.1) && pool.next !in pool.live
  {
    var (h, pool') :- NativeCreate(pool, false, lib, code);
    Ok((Wrap(h), pool'))
  }

  /** `create` is the pattern's creating factory for a call that always
      returns a fresh handle, so the block-level release-at-most-once theorem
      covers operators declared from it. */
  lemma CreateIsAcquire(pool: Pool<Tag>, lib: ErrorStrings, code: int)
    ensures Create(pool, lib, code) == Acquire(pool, false, lib, code)
  {
  }

  /** A registered operator is released exactly once by its destructor, and the
      library is back to the operators it had before. */
  lemma CreateThenDestroy(pool: Pool<Tag>, lib: ErrorStrings)
    requires pool.Valid()
    ensures var (o, pool1) := Create(pool, lib, SUCCESS).value;
      var pool2 := Destroy(o, pool1, lib, SUCCESS).value;
      && pool2.Valid()
      && pool2.live == pool.live
      && pool2.released == pool.released + [Created(pool.next)]
  {
  }
}
