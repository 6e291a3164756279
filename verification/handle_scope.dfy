/** A block of code that holds owned-handle wrappers (communicators, datatypes
    or reduction operators of one kind) in local variables.

    The slots are the wrapper objects in declaration order. A program step
    declares a new object (default, predefined constant, result of a creating
    factory, or move-constructed from another slot), move-assigns one slot to
    another, or leaves the innermost declaration, which runs its destructor.
    The ownership invariant `Valid` says that the live run-time handles are
    exactly the ones the slots own, each owned by one slot only. Every step keeps
    it, so every handle is released at most once, and leaving the whole block
    releases each owned handle exactly once.
 */
module HandleScope {
  import opened Errors
  import opened OwnedHandle

  /** The wrapper objects in scope and the library's table. */
  datatype Scope<P(==)> = Scope(slots: seq<Owned<P>>, pool: Pool<P>)

  /** The run-time handles the slots own. */
  function OwnedIds<P>(slots: seq<Owned<P>>): set<nat>
  {
    set i | 0 <= i < |slots| && slots[i].owned && slots[i].handle.Created? :: slots[i].handle.id
  }

  /** No two owning slots hold the same handle. */
  predicate Exclusive<P(==)>(slots: seq<Owned<P>>)
  {
    forall i, j :: 0 <= i < j < |slots| && slots[i].owned && slots[j].owned ==> slots[i].handle != slots[j].handle
  }

  /** The ownership invariant. */
  predicate Valid<P(==)>(s: Scope<P>)
  {
    && s.pool.Valid()
    && (forall i :: 0 <= i < |s.slots| && s.slots[i].owned ==> s.slots[i].handle.Created?)
    && Exclusive(s.slots)
    && s.pool.live == OwnedIds(s.slots)
  }

  /** One statement of the block. `code` is the status the library returns for
      the native call the statement makes, if any. `DeclareAcquired` is a
      creating factory with the ownership flag set only for a run-time handle
      (`Acquire`): `dup` always, and the corrected `split`, `split_type` and
      `cart_create` when `excluded` says the library left this process out.
      The factories as written are not statements of this block; see
      `Comms.AsWrittenBreaksScope`. */
  datatype Step<P> =
    | DeclareDefault                          // T x;
    | DeclarePredefined(tag: P)               // auto x = T::world();
    | DeclareAcquired(excluded: bool, code: int) // auto x = y.dup(); or a corrected y.split(...);
    | DeclareMoved(from: nat)                 // T x = std::move(slot from);
    | Assign(to: nat, from: nat, code: int)   // slot to = std::move(slot from);
    | Leave(code: int)                        // the innermost object goes out of scope

  /** A statement refers only to slots that exist. */
  predicate Fits<P>(n: nat, step: Step<P>)
  {
    match step
    case DeclareMoved(from) => from < n
    case Assign(to, from, _) => to < n && from < n
    case Leave(_) => n > 0
    case _ => true
  }

  /** How many slots exist after a statement that completed. */
  function SlotsAfter<P>(n: nat, step: Step<P>): nat
    requires Fits(n, step)
  {
    match step
    case Assign(_, _, _) => n
    case Leave(_) => n - 1
    case _ => n + 1
  }

  /** Move assignment on the slots, field by field as the source writes it, so
      that `to == from` (self-move) is covered too: release the target if it
      owns its handle (the library writes the null handle back), copy the
      source's fields into the target, then reset the source. */
  function AssignSlots<P(==)>(slots: seq<Owned<P>>, to: nat, from: nat, pool: Pool<P>, lib: ErrorStrings, code: int)
    : (r: Result<(seq<Owned<P>>, Pool<P>)>)
    requires to < |slots| && from < |slots|
    ensures r.Ok? ==> |r.value.0| == |slots|
  {
    var target := slots[to];
    var pool' :- Destroy(target, pool, lib, code);
    var afterFree := if target.owned then slots[to := Owned(NullHandle, target.owned)] else slots;
    var taken := afterFree[to := afterFree[from]];
    Ok((taken[from := Default()], pool'))
  }

  /** One statement. */
  function Apply<P(==)>(s: Scope<P>, step: Step<P>, lib: ErrorStrings): (r: Result<Scope<P>>)
    requires Fits(|s.slots|, step)
    ensures r.Ok? ==> |r.value.slots| == SlotsAfter(|s.slots|, step)
  {
    match step
    case DeclareDefault => Ok(Scope(s.slots + [Default()], s.pool))
    case DeclarePredefined(tag) => Ok(Scope(s.slots + [Owned(Builtin(tag), false)], s.pool))
    case DeclareAcquired(excluded, code) =>
      var (w, pool') :- Acquire(s.pool, excluded, lib, code);
      Ok(Scope(s.slots + [w], pool'))
    case DeclareMoved(from) =>
      var m := MoveConstruct(s.slots[from]);
      Ok(Scope(s.slots[from := m.source] + [m.target], s.pool))
    case Assign(to, from, code) =>
      var (slots', pool') :- AssignSlots(s.slots, to, from, s.pool, lib, code);
      Ok(Scope(slots', pool'))
    case Leave(code) =>
      var pool' :- Destroy(s.slots[|s.slots| - 1], s.pool, lib, code);
      Ok(Scope(s.slots[..|s.slots| - 1], pool'))
  }

  /** A block whose every statement refers to existing slots, assuming the
      statements before it completed. */
  predicate WellFormed<P>(n: nat, steps: seq<Step<P>>)
    decreases |steps|
  {
    steps == [] || (Fits(n, steps[0]) && WellFormed(SlotsAfter(n, steps[0]), steps[1..]))
  }

  /** Where a run of statements stops: the scope reached and, if a statement
      threw, its exception (the scope is then the one before that statement). */
  datatype Run<P(==)> = Run(scope: Scope<P>, outcome: Outcome)

  /** Running statements in order until one throws. */
  function Execute<P(==)>(s: Scope<P>, steps: seq<Step<P>>, lib: ErrorStrings): Run<P>
    requires WellFormed(|s.slots|, steps)
    decreases |steps|
  {
    if steps == [] then Run(s, Pass)
    else match Apply(s, steps[0], lib)
      case Err(f) => Run(s, Fail(f))
      case Ok(s') => Execute(s', steps[1..], lib)
  }

  // ---------------------------------------------------------------------------
  // How OwnedIds changes under the three edits the statements make.

  lemma OwnedIdsAppend<P>(slots: seq<Owned<P>>, w: Owned<P>)
    ensures OwnedIds(slots + [w]) == OwnedIds(slots) + IdOf(w)
  {
    var ext := slots + [w];
    forall id | id in OwnedIds(slots)
      ensures id in OwnedIds(ext)
    {
      var i :| 0 <= i < |slots| && slots[i].owned && slots[i].handle.Created? && slots[i].handle.id == id;
      assert ext[i] == slots[i];
    }
    forall id | id in IdOf(w)
      ensures id in OwnedIds(ext)
    {
      assert ext[|slots|] == w;
    }
  }

  lemma OwnedIdsUpdate<P>(slots: seq<Owned<P>>, k: nat, w: Owned<P>)
    requires k < |slots| && Exclusive(slots)
    ensures OwnedIds(slots[k := w]) == (OwnedIds(slots) - IdOf(slots[k])) + IdOf(w)
  {
    var upd := slots[k := w];
    forall id | id in OwnedIds(slots) - IdOf(slots[k])
      ensures id in OwnedIds(upd)
    {
      var i :| 0 <= i < |slots| && slots[i].owned && slots[i].handle.Created? && slots[i].handle.id == id;
      assert i != k;
      assert upd[i] == slots[i];
    }
    forall id | id in IdOf(w)
      ensures id in OwnedIds(upd)
    {
      assert upd[k] == w;
    }
    forall id | id in OwnedIds(upd)
      ensures id in (OwnedIds(slots) - IdOf(slots[k])) + IdOf(w)
    {
      var i :| 0 <= i < |upd| && upd[i].owned && upd[i].handle.Created? && upd[i].handle.id == id;
      if i != k {
        assert slots[i] == upd[i];
        assert id in OwnedIds(slots);
        if id in IdOf(slots[k]) {
          if i < k {
            assert slots[i].handle != slots[k].handle;
          } else {
            assert slots[k].handle != slots[i].handle;
          }
        }
      }
    }
  }

  lemma OwnedIdsDropLast<P>(slots: seq<Owned<P>>)
    requires |slots| > 0 && Exclusive(slots)
    ensures OwnedIds(slots[..|slots| - 1]) == OwnedIds(slots) - IdOf(slots[|slots| - 1])
  {
    var n := |slots|;
    var prefix := slots[..n - 1];
    assert slots == prefix + [slots[n - 1]];
    OwnedIdsAppend(prefix, slots[n - 1]);
    forall id | id in OwnedIds(prefix)
      ensures id !in IdOf(slots[n - 1])
    {
      var i :| 0 <= i < |prefix| && prefix[i].owned && prefix[i].handle.Created? && prefix[i].handle.id == id;
      assert slots[i] == prefix[i];
    }
  }

  lemma ExclusiveUpdate<P>(slots: seq<Owned<P>>, k: nat, w: Owned<P>)
    requires k < |slots| && Exclusive(slots)
    requires w.owned ==> forall i :: 0 <= i < |slots| && i != k && slots[i].owned ==> slots[i].handle != w.handle
    ensures Exclusive(slots[k := w])
  {
  }

  // ---------------------------------------------------------------------------
  // The ownership invariant is kept by every statement.

  lemma AssignKeepsValid<P>(s: Scope<P>, to: nat, from: nat, lib: ErrorStrings, code: int)
    requires Valid(s) && to < |s.slots| && from < |s.slots|
    requires AssignSlots(s.slots, to, from, s.pool, lib, code).Ok?
    ensures var (slots', pool') := AssignSlots(s.slots, to, from, s.pool, lib, code).value;
      Valid(Scope(slots', pool'))
  {
    var (slots', pool') := AssignSlots(s.slots, to, from, s.pool, lib, code).value;
    var target := s.slots[to];
    assert target.owned ==> target.handle.id in OwnedIds(s.slots);
    assert Sound(target, s.pool);
    assert pool'.Valid() && pool'.live == s.pool.live - IdOf(target);
    if to == from {
      assert slots' == s.slots[to := Default()];
      ExclusiveUpdate(s.slots, to, Default());
      OwnedIdsUpdate(s.slots, to, Default());
    } else {
      var cleared := s.slots[from := Default()];
      ExclusiveUpdate(s.slots, from, Default());
      OwnedIdsUpdate(s.slots, from, Default());
      assert slots' == cleared[to := s.slots[from]];
      ExclusiveUpdate(cleared, to, s.slots[from]);
      OwnedIdsUpdate(cleared, to, s.slots[from]);
      assert cleared[to] == target;
      assert IdOf(s.slots[from]) !! IdOf(target) by {
        if to < from {
          assert target.owned && s.slots[from].owned ==> target.handle != s.slots[from].handle;
        } else {
          assert target.owned && s.slots[from].owned ==> s.slots[from].handle != target.handle;
        }
      }
    }
  }

  lemma ApplyKeepsValid<P>(s: Scope<P>, step: Step<P>, lib: ErrorStrings)
    requires Valid(s) && Fits(|s.slots|, step)
    requires Apply(s, step, lib).Ok?
    ensures Valid(Apply(s, step, lib).value)
  {
    var s' := Apply(s, step, lib).value;
    match step
    case DeclareDefault =>
      OwnedIdsAppend(s.slots, Default());
    case DeclarePredefined(tag) =>
      OwnedIdsAppend(s.slots, Owned(Builtin(tag), false));
    case DeclareAcquired(excluded, code) =>
      var (w, pool') := Acquire(s.pool, excluded, lib, code).value;
      OwnedIdsAppend(s.slots, w);
      if w.owned {
        forall i | 0 <= i < |s.slots| && s.slots[i].owned
          ensures s.slots[i].handle != w.handle
        {
          assert s.slots[i].handle.id in OwnedIds(s.slots);
        }
      }
    case DeclareMoved(from) =>
      var w := s.slots[from];
      ExclusiveUpdate(s.slots, from, Default());
      OwnedIdsUpdate(s.slots, from, Default());
      var cleared := s.slots[from := Default()];
      OwnedIdsAppend(cleared, w);
      assert s'.slots == cleared + [w];
      assert IdOf(w) <= OwnedIds(s.slots);
    case Assign(to, from, code) =>
      AssignKeepsValid(s, to, from, lib, code);
    case Leave(code) =>
      var last := s.slots[|s.slots| - 1];
      assert last.owned ==> last.handle.id in OwnedIds(s.slots);
      OwnedIdsDropLast(s.slots);
  }

  /** Release at most once, for a whole block: from a state that keeps the
      ownership invariant, any sequence of statements reaches a state that keeps
      it, whether it runs to the end or stops at an exception. In particular the
      library's release log never names a handle twice. */
  lemma {:induction false} ExecuteKeepsValid<P>(s: Scope<P>, steps: seq<Step<P>>, lib: ErrorStrings)
    requires Valid(s) && WellFormed(|s.slots|, steps)
    ensures Valid(Execute(s, steps, lib).scope)
    decreases |steps|
  {
    if steps != [] {
      var r := Apply(s, steps[0], lib);
      if r.Ok? {
        ApplyKeepsValid(s, steps[0], lib);
        ExecuteKeepsValid(r.value, steps[1..], lib);
      }
    }
  }

  // ---------------------------------------------------------------------------
  // Leaving the block.

  /** The handles leaving the block releases, innermost declaration first. */
  function ReleaseOrder<P>(slots: seq<Owned<P>>): seq<Handle<P>>
    decreases |slots|
  {
    if slots == [] then []
    else
      var last := slots[|slots| - 1];
      (if last.owned then [last.handle] else []) + ReleaseOrder(slots[..|slots| - 1])
  }

  /** The end of the block: every slot is destroyed, innermost first, each
      destructor getting its own status code. A failing release ends the
      program. On success every handle the block owned was released exactly
      once and nothing is left live. */
  method LeaveBlock<P(==)>(s: Scope<P>, lib: ErrorStrings, codes: seq<int>) returns (r: Result<Pool<P>>)
    requires Valid(s) && |codes| == |s.slots|
    ensures r.Ok? <==> forall i :: 0 <= i < |s.slots| && s.slots[i].owned ==> codes[i] == SUCCESS
    ensures r.Ok? ==> r.value.Valid() && r.value.live == {}
    ensures r.Ok? ==> r.value.released == s.pool.released + ReleaseOrder(s.slots)
    ensures r.Ok? ==> forall id :: id in s.pool.live ==> Created(id) in r.value.released
  {
    var n := |s.slots|;
    var pool := s.pool;
    assert s.slots[..n] == s.slots;
    while n > 0
      invariant 0 <= n <= |s.slots|
      invariant Valid(Scope(s.slots[..n], pool))
      invariant pool.released + ReleaseOrder(s.slots[..n]) == s.pool.released + ReleaseOrder(s.slots)
      invariant forall i :: n <= i < |s.slots| && s.slots[i].owned ==> codes[i] == SUCCESS
      decreases n
    {
      var destroyed := Destroy(s.slots[n - 1], pool, lib, codes[n - 1]);
      if destroyed.Err? {
        return Err(destroyed.failure);
      }
      LeaveLast(s.slots[..n], pool, lib, codes[n - 1]);
      assert s.slots[..n][..n - 1] == s.slots[..n - 1];
      pool := destroyed.value;
      n := n - 1;
    }
    assert s.slots[..0] == [];
    AllOwnedReleased(s, pool.released);
    return Ok(pool);
  }

  /** Leaving the innermost declaration keeps the invariant and releases that
      declaration's handle ahead of the others. */
  lemma LeaveLast<P>(slots: seq<Owned<P>>, pool: Pool<P>, lib: ErrorStrings, code: int)
    requires |slots| > 0 && Valid(Scope(slots, pool))
    requires Destroy(slots[|slots| - 1], pool, lib, code).Ok?
    ensures var pool' := Destroy(slots[|slots| - 1], pool, lib, code).value;
      && Valid(Scope(slots[..|slots| - 1], pool'))
      && pool'.released + ReleaseOrder(slots[..|slots| - 1]) == pool.released + ReleaseOrder(slots)
  {
    var n := |slots|;
    var pool' := Destroy(slots[n - 1], pool, lib, code).value;
    LeaveLastValid(slots, pool, lib, code);
    LeaveLastOrder(slots, pool, pool'.released);
  }

  lemma LeaveLastValid<P>(slots: seq<Owned<P>>, pool: Pool<P>, lib: ErrorStrings, code: int)
    requires |slots| > 0 && Valid(Scope(slots, pool))
    requires Destroy(slots[|slots| - 1], pool, lib, code).Ok?
    ensures Valid(Scope(slots[..|slots| - 1], Destroy(slots[|slots| - 1], pool, lib, code).value))
  {
    ApplyKeepsValid(Scope(slots, pool), Leave(code), lib);
  }

  lemma LeaveLastOrder<P>(slots: seq<Owned<P>>, pool: Pool<P>, released: seq<Handle<P>>)
    requires |slots| > 0
    requires var last := slots[|slots| - 1];
      released == pool.released + (if last.owned then [last.handle] else [])
    ensures released + ReleaseOrder(slots[..|slots| - 1]) == pool.released + ReleaseOrder(slots)
  {
  }

  /** Everything live at the start of the block is in its release order. */
  lemma AllOwnedReleased<P>(s: Scope<P>, released: seq<Handle<P>>)
    requires Valid(s)
    requires released == s.pool.released + ReleaseOrder(s.slots)
    ensures forall id :: id in s.pool.live ==> Created(id) in released
  {
    forall id | id in s.pool.live
      ensures Created(id) in released
    {
      var i :| 0 <= i < |s.slots| && s.slots[i].owned && s.slots[i].handle.Created? && s.slots[i].handle.id == id;
      ReleaseOrderHolds(s.slots, i);
    }
  }

  /** Every owning slot's handle appears in the release order. */
  lemma {:induction false} ReleaseOrderHolds<P>(slots: seq<Owned<P>>, i: nat)
    requires i < |slots| && slots[i].owned
    ensures slots[i].handle in ReleaseOrder(slots)
    decreases |slots|
  {
    var n := |slots|;
    if i < n - 1 {
      ReleaseOrderHolds(slots[..n - 1], i);
    }
  }

  // ---------------------------------------------------------------------------
  // The slot-level statement against the two-object definition.

  /** For two distinct slots, the field-by-field move assignment is the
      two-object `MoveAssign` of the pattern. */
  lemma AssignSlotsIsMoveAssign<P>(slots: seq<Owned<P>>, to: nat, from: nat, pool: Pool<P>, lib: ErrorStrings, code: int)
    requires to < |slots| && from < |slots| && to != from
    ensures var a := AssignSlots(slots, to, from, pool, lib, code);
      var b := MoveAssign(slots[to], slots[from], pool, lib, code);
      && (a.Ok? <==> b.Ok?)
      && (a.Ok? ==> a.value.0 == slots[to := b.value.0.target][from := b.value.0.source]
                    && a.value.1 == b.value.1)
  {
  }

  /** Self move assignment (`x = std::move(x)`) releases the object's own handle
      once if it owns it and leaves the object in the default state. */
  lemma SelfAssign<P>(slots: seq<Owned<P>>, k: nat, pool: Pool<P>, lib: ErrorStrings, code: int)
    requires k < |slots|
    requires AssignSlots(slots, k, k, pool, lib, code).Ok?
    ensures var (slots', pool') := AssignSlots(slots, k, k, pool, lib, code).value;
      && slots' == slots[k := Default()]
      && pool'.released == pool.released + (if slots[k].owned then [slots[k].handle] else [])
  {
  }
}
