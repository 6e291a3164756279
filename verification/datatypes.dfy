/** The `datatype` wrapper and the scalar-type table `predefined_datatype<T>`.

    A datatype wrapper is an owned handle (see `OwnedHandle`) over MPI_Datatype.
    Every factory the library offers wraps one fixed predefined constant with
    the ownership flag cleared, so no datatype the library hands out is ever
    released; a datatype built elsewhere and wrapped with the flag set is
    released by MPI_Type_free.
 */
module Datatypes {
  import opened Errors
  import opened OwnedHandle

  /** The predefined MPI_Datatype constants the factories wrap. */
  datatype Tag =
    | Byte              // MPI_BYTE
    | Char              // MPI_CHAR
    | Unsigned          // MPI_UNSIGNED
    | UnsignedLong      // MPI_UNSIGNED_LONG
    | UnsignedLongLong  // MPI_UNSIGNED_LONG_LONG
    | Int               // MPI_INT
    | LongLongInt       // MPI_LONG_LONG_INT
    | Float             // MPI_FLOAT
    | Double            // MPI_DOUBLE
    | CBool             // MPI_C_BOOL
    | Packed            // MPI_PACKED

  /** The wrapper object. */
  type Datatype = Owned<Tag>

  /** The `predefined_*` factories: `predefined_byte()` is `Predefined(Byte)`,
      ..., `predefined_bool()` is `Predefined(CBool)` and `predefined_packed()`
      is `Predefined(Packed)`. */
  function Predefined(tag: Tag): Datatype
  {
    Owned(Builtin(tag), false)
  }

  /** Every factory's datatype is inert: it holds its own constant, distinct
      factories hold distinct constants, it never counts as owning a run-time
      handle, and destroying it (or a copy of its pair moved elsewhere) makes no
      native call whatever the library would answer. */
  lemma PredefinedIsInert(tag: Tag, other: Tag, pool: Pool<Tag>, lib: ErrorStrings, code: int)
    ensures Get(Predefined(tag)) == Builtin(tag)
    ensures tag != other ==> Get(Predefined(tag)) != Get(Predefined(other))
    ensures Sound(Predefined(tag), pool) && IdOf(Predefined(tag)) == {}
    ensures Destroy(Predefined(tag), pool, lib, code) == Ok(pool)
    ensures Destroy(MoveConstruct(Predefined(tag)).target, pool, lib, code) == Ok(pool)
  {
  }

  /** The C++ scalar types `predefined_datatype<T>` is specialised for; any
      other `T` has no specialisation and does not compile. */
  datatype Scalar =
    | CxxByte              // std::byte
    | CxxChar              // char
    | CxxUnsigned          // unsigned
    | CxxUnsignedLong      // unsigned long
    | CxxUnsignedLongLong  // unsigned long long
    | CxxInt               // int
    | CxxLongLongInt       // long long int
    | CxxFloat             // float
    | CxxDouble            // double
    | CxxBool              // bool

  /** The factory each specialisation calls, as the constant it wraps. */
  function TagOf(t: Scalar): (tag: Tag)
    ensures tag != Packed
  {
    match t
    case CxxByte => Byte
    case CxxChar => Char
    case CxxUnsigned => Unsigned
    case CxxUnsignedLong => UnsignedLong
    case CxxUnsignedLongLong => UnsignedLongLong
    case CxxInt => Int
    case CxxLongLongInt => LongLongInt
    case CxxFloat => Float
    case CxxDouble => Double
    case CxxBool => CBool
  }

  /** `predefined_datatype<T>()`: the factory for `T`'s constant, hence never
      owned. */
  function PredefinedDatatype(t: Scalar): (d: Datatype)
    ensures !d.owned && d.handle.Builtin? && d.handle.tag != Packed
  {
    Predefined(TagOf(t))
  }

  /** The table maps distinct scalar types to distinct constants. */
  lemma TagOfInjective(a: Scalar, b: Scalar)
    ensures TagOf(a) == TagOf(b) <==> a == b
  {
  }

  /** The table reaches every predefined constant except MPI_PACKED, which has
      a factory but no scalar type; `bool` reaches MPI_C_BOOL, and
      `predefined_packed()` holds MPI_PACKED. */
  lemma TagOfCoversAllButPacked(tag: Tag)
    ensures tag != Packed <==> exists t :: TagOf(t) == tag
    ensures TagOf(CxxBool) == CBool
    ensures Get(Predefined(Packed)) == Builtin(Packed) && !Predefined(Packed).owned
  {
    if tag != Packed {
      var t := match tag
        case Byte => CxxByte
        case Char => CxxChar
        case Unsigned => CxxUnsigned
        case UnsignedLong => CxxUnsignedLong
        case UnsignedLongLong => CxxUnsignedLongLong
        case Int => CxxInt
        case LongLongInt => CxxLongLongInt
        case Float => CxxFloat
        case Double => CxxDouble
        case CBool => CxxBool
        case Packed => CxxByte;
      assert TagOf(t) == tag;
    }
  }
}
