/** A block of code that holds `request` objects in local variables.

    The slots are the request objects in declaration order; a batch handed to
    `waitall` is a run of consecutive slots (the array the caller passes). The
    invariant `Valid` says that the operations the library still has active are
    exactly the ones the slots hold, each held by one slot only. Every statement
    keeps it: no operation is completed twice, and none is forgotten while
    active, because the copy operations refuse pending requests and the move
    operations null their source. Leaving the block completes every operation
    still held.
 */
module RequestScope {
  import opened Errors
  import opened Requests

  /** The request objects in scope and the library's table. */
  datatype Scope = Scope(slots: seq<Request>, engine: Engine)

  /** The operation a request holds, if any. */
  function IdOf(r: Request): set<nat>
  {
    if r.Pending? then {r.id} else {}
  }

  /** The operations the slots hold. */
  function PendingSet(slots: seq<Request>): set<nat>
  {
    set i | 0 <= i < |slots| && slots[i].Pending? :: slots[i].id
  }

  /** No two slots hold the same operation. */
  predicate Exclusive(slots: seq<Request>)
  {
    forall i, j :: 0 <= i < j < |slots| && slots[i].Pending? ==> slots[i] != slots[j]
  }

  /** The invariant: every active operation is held by exactly one slot, and
      every held operation is active. */
  predicate Valid(s: Scope)
  {
    && s.engine.Valid()
    && Exclusive(s.slots)
    && s.engine.active == PendingSet(s.slots)
  }

  /** One statement of the block. `code` is the status the library returns for
      the native call the statement makes, if any; `flag` is MPI_Test's answer. */
  datatype Step =
    | DeclareNull                                   // request r;
    | DeclareStarted(call: Operation, code: int)    // auto r = c.isend(...);
    | DeclareCopy(from: nat)                        // request r(slot from);
    | DeclareMoved(from: nat)                       // request r(std::move(slot from));
    | CopyAssignSlot(to: nat, from: nat, code: int) // slot to = slot from;
    | MoveAssignSlot(to: nat, from: nat, code: int) // slot to = std::move(slot from);
    | WaitOn(at: nat, code: int)                    // slot at.wait();
    | TestOn(at: nat, code: int, flag: bool)        // slot at.test();
    | WaitAllOf(lo: nat, count: nat, code: int)     // waitall(count, &slot lo);
    | Leave(code: int)                              // the innermost request goes out of scope

  /** A statement refers only to slots that exist. */
  predicate Fits(n: nat, step: Step)
  {
    match step
    case DeclareCopy(from) => from < n
    case DeclareMoved(from) => from < n
    case CopyAssignSlot(to, from, _) => to < n && from < n
    case MoveAssignSlot(to, from, _) => to < n && from < n
    case WaitOn(at, _) => at < n
    case TestOn(at, _, _) => at < n
    case WaitAllOf(lo, count, _) => lo + count <= n
    case Leave(_) => n > 0
    case _ => true
  }

  /** How many slots exist after a statement that completed. */
  function SlotsAfter(n: nat, step: Step): nat
    requires Fits(n, step)
  {
    match step
    case DeclareNull => n + 1
    case DeclareStarted(_, _) => n + 1
    case DeclareCopy(_) => n + 1
    case DeclareMoved(_) => n + 1
    case Leave(_) => n - 1
    case _ => n
  }

  /** Move assignment on the slots, as the source writes it, so that
      `to == from` (self-move) is covered too: wait for the target, copy the
      source's handle into the target, then null the source. */
  function MoveSlots(slots: seq<Request>, to: nat, from: nat, e: Engine, lib: ErrorStrings, code: int)
    : (r: Result<(seq<Request>, Engine)>)
    requires to < |slots| && from < |slots|
    ensures r.Ok? ==> |r.value.0| == |slots|
  {
    var (waited, e') :- Wait(slots[to], e, lib, code);
    var afterWait := slots[to := waited];
    var taken := afterWait[to := afterWait[from]];
    Ok((taken[from := NullRequest], e'))
  }

  /** One statement. */
  function Apply(s: Scope, step: Step, lib: ErrorStrings): (r: Result<Scope>)
    requires Fits(|s.slots|, step)
    ensures r.Ok? ==> |r.value.slots| == SlotsAfter(|s.slots|, step)
  {
    match step
    case DeclareNull => Ok(Scope(s.slots + [NullRequest], s.engine))
    case DeclareStarted(call, code) =>
      var (r, e') :- Start(s.engine, call, lib, code);
      Ok(Scope(s.slots + [r], e'))
    case DeclareCopy(from) =>
      var r :- CopyConstruct(s.slots[from]);
      Ok(Scope(s.slots + [r], s.engine))
    case DeclareMoved(from) =>
      var m := Requests.MoveConstruct(s.slots[from]);
      Ok(Scope(s.slots[from := m.source] + [m.target], s.engine))
    case CopyAssignSlot(to, from, code) =>
      var (r, e') :- Requests.CopyAssign(s.slots[to], s.slots[from], s.engine, lib, code);
      Ok(Scope(s.slots[to := r], e'))
    case MoveAssignSlot(to, from, code) =>
      var (slots', e') :- MoveSlots(s.slots, to, from, s.engine, lib, code);
      Ok(Scope(slots', e'))
    case WaitOn(at, code) =>
      var (r, e') :- Wait(s.slots[at], s.engine, lib, code);
      Ok(Scope(s.slots[at := r], e'))
    case TestOn(at, code, flag) =>
      var (_, r, e') :- Test(s.slots[at], s.engine, lib, code, flag);
      Ok(Scope(s.slots[at := r], e'))
    case WaitAllOf(lo, count, code) =>
      var (batch, e') :- WaitAll(s.slots[lo..], count, s.engine, lib, code);
      Ok(Scope(s.slots[..lo] + batch, e'))
    case Leave(code) =>
      var e' :- Destroy(s.slots[|s.slots| - 1], s.engine, lib, code);
      Ok(Scope(s.slots[..|s.slots| - 1], e'))
  }

  /** A block whose every statement refers to existing slots, assuming the
      statements before it completed. */
  predicate WellFormed(n: nat, steps: seq<Step>)
    decreases |steps|
  {
    steps == [] || (Fits(n, steps[0]) && WellFormed(SlotsAfter(n, steps[0]), steps[1..]))
  }

  /** Where a run of statements stops: the scope reached and, if a statement
      threw, its exception (the scope is then the one before that statement). */
  datatype Run = Run(scope: Scope, outcome: Outcome)

  /** Running statements in order until one throws. */
  function Execute(s: Scope, steps: seq<Step>, lib: ErrorStrings): Run
    requires WellFormed(|s.slots|, steps)
    decreases |steps|
  {
    if steps == [] then Run(s, Pass)
    else match Apply(s, steps[0], lib)
      case Err(f) => Run(s, Fail(f))
      case Ok(s') => Execute(s', steps[1..], lib)
  }

  // ---------------------------------------------------------------------------
  // How PendingSet changes under the edits the statements make.

  lemma PendingSetAppend(slots: seq<Request>, r: Request)
    ensures PendingSet(slots + [r]) == PendingSet(slots) + IdOf(r)
  {
    var ext := slots + [r];
    forall id | id in PendingSet(slots)
      ensures id in PendingSet(ext)
    {
      var i :| 0 <= i < |slots| && slots[i].Pending? && slots[i].id == id;
      assert ext[i] == slots[i];
    }
    forall id | id in IdOf(r)
      ensures id in PendingSet(ext)
    {
      assert ext[|slots|] == r;
    }
  }

  lemma PendingSetUpdate(slots: seq<Request>, k: nat, r: Request)
    requires k < |slots| && Exclusive(slots)
    ensures PendingSet(slots[k := r]) == (PendingSet(slots) - IdOf(slots[k])) + IdOf(r)
  {
    var upd := slots[k := r];
    forall id | id in PendingSet(slots) - IdOf(slots[k])
      ensures id in PendingSet(upd)
    {
      var i :| 0 <= i < |slots| && slots[i].Pending? && slots[i].id == id;
      assert upd[i] == slots[i];
    }
    forall id | id in IdOf(r)
      ensures id in PendingSet(upd)
    {
      assert upd[k] == r;
    }
    forall id | id in PendingSet(upd)
      ensures id in (PendingSet(slots) - IdOf(slots[k])) + IdOf(r)
    {
      var i :| 0 <= i < |upd| && upd[i].Pending? && upd[i].id == id;
      if i != k {
        assert slots[i] == upd[i];
        assert id in PendingSet(slots);
      }
    }
  }

  lemma PendingSetDropLast(slots: seq<Request>)
    requires |slots| > 0 && Exclusive(slots)
    ensures PendingSet(slots[..|slots| - 1]) == PendingSet(slots) - IdOf(slots[|slots| - 1])
  {
    var n := |slots|;
    var prefix := slots[..n - 1];
    assert slots == prefix + [slots[n - 1]];
    PendingSetAppend(prefix, slots[n - 1]);
    forall id | id in PendingSet(prefix)
      ensures id !in IdOf(slots[n - 1])
    {
      var i :| 0 <= i < |prefix| && prefix[i].Pending? && prefix[i].id == id;
      assert slots[i] == prefix[i];
    }
  }

  /** Nulling a run of consecutive slots drops exactly the operations it held. */
  lemma PendingSetNullRun(slots: seq<Request>, lo: nat, count: nat, batch: seq<Request>)
    requires lo + count <= |slots| && Exclusive(slots)
    requires |batch| == |slots| - lo
    requires forall i :: 0 <= i < count ==> batch[i] == NullRequest
    requires batch[count..] == slots[lo + count..]
    ensures PendingSet(slots[..lo] + batch) == PendingSet(slots) - IdSet(PendingIds(slots[lo..lo + count]))
  {
    var after := slots[..lo] + batch;
    var run := slots[lo..lo + count];
    assert forall i :: 0 <= i < |after| && !(lo <= i < lo + count) ==> after[i] == slots[i] by {
      forall i | 0 <= i < |after| && !(lo <= i < lo + count)
        ensures after[i] == slots[i]
      {
        if i >= lo + count {
          assert after[i] == batch[i - lo] == batch[count..][i - lo - count];
        }
      }
    }
    forall id | id in PendingSet(after)
      ensures id in PendingSet(slots) && id !in IdSet(PendingIds(run))
    {
      var i :| 0 <= i < |after| && after[i].Pending? && after[i].id == id;
      assert after[i] == slots[i];
      forall j | 0 <= j < count
        ensures run[j] != Pending(id)
      {
        assert run[j] == slots[lo + j];
        if lo + j < i {
          assert slots[lo + j].Pending? ==> slots[lo + j] != slots[i];
        } else {
          assert slots[i] != slots[lo + j];
        }
      }
      assert Pending(id) !in run;
    }
    forall id | id in PendingSet(slots) && id !in IdSet(PendingIds(run))
      ensures id in PendingSet(after)
    {
      var i :| 0 <= i < |slots| && slots[i].Pending? && slots[i].id == id;
      assert after[i] == slots[i];
    }
  }

  // ---------------------------------------------------------------------------
  // The invariant is kept by every statement.

  /** Completing the operation of one slot through a native call keeps the
      invariant. */
  lemma CompleteSlotKeepsValid(s: Scope, k: nat, call: Call)
    requires Valid(s) && k < |s.slots| && s.slots[k].Pending?
    ensures Valid(Scope(s.slots[k := NullRequest], Complete(s.engine, s.slots[k].id, call)))
  {
    assert s.slots[k].id in PendingSet(s.slots);
    PendingSetUpdate(s.slots, k, NullRequest);
  }

  /** A successful wait on one slot keeps the invariant. */
  lemma WaitKeepsValid(s: Scope, k: nat, lib: ErrorStrings, code: int)
    requires Valid(s) && k < |s.slots|
    requires Wait(s.slots[k], s.engine, lib, code).Ok?
    ensures var (r, e') := Wait(s.slots[k], s.engine, lib, code).value;
      Valid(Scope(s.slots[k := r], e'))
  {
    if s.slots[k].Pending? {
      CompleteSlotKeepsValid(s, k, Waited(s.slots[k].id));
    } else {
      assert s.slots[k := NullRequest] == s.slots;
    }
  }

  /** Moving a request into a null slot and nulling its source keeps the slots'
      operations and their exclusiveness. */
  lemma MoveIntoNullSlot(slots: seq<Request>, to: nat, from: nat)
    requires to < |slots| && from < |slots| && slots[to] == NullRequest && Exclusive(slots)
    ensures Exclusive(slots[to := slots[from]][from := NullRequest])
    ensures PendingSet(slots[to := slots[from]][from := NullRequest]) == PendingSet(slots)
  {
    if to != from {
      var taken := slots[to := slots[from]];
      PendingSetUpdate(slots, from, NullRequest);
      var cleared := slots[from := NullRequest];
      assert taken[from := NullRequest] == cleared[to := slots[from]];
      PendingSetUpdate(cleared, to, slots[from]);
    } else {
      assert slots[to := slots[from]][from := NullRequest] == slots;
    }
  }

  lemma MoveSlotsKeepsValid(s: Scope, to: nat, from: nat, lib: ErrorStrings, code: int)
    requires Valid(s) && to < |s.slots| && from < |s.slots|
    requires MoveSlots(s.slots, to, from, s.engine, lib, code).Ok?
    ensures var (slots', e') := MoveSlots(s.slots, to, from, s.engine, lib, code).value;
      Valid(Scope(slots', e'))
  {
    var (waited, e') := Wait(s.slots[to], s.engine, lib, code).value;
    WaitKeepsValid(s, to, lib, code);
    var afterWait := s.slots[to := waited];
    MoveIntoNullSlot(afterWait, to, from);
  }

  lemma WaitAllKeepsValid(s: Scope, lo: nat, count: nat, lib: ErrorStrings, code: int)
    requires Valid(s) && lo + count <= |s.slots|
    requires WaitAll(s.slots[lo..], count, s.engine, lib, code).Ok?
    ensures var (batch, e') := WaitAll(s.slots[lo..], count, s.engine, lib, code).value;
      Valid(Scope(s.slots[..lo] + batch, e'))
  {
    var (batch, e') := WaitAll(s.slots[lo..], count, s.engine, lib, code).value;
    var run := s.slots[lo..lo + count];
    assert s.slots[lo..][..count] == run;
    forall i | 0 <= i < |run|
      ensures Sound(run[i], s.engine)
    {
      assert run[i] == s.slots[lo + i];
    }
    forall i, j | 0 <= i < j < |run| && run[i].Pending?
      ensures run[i] != run[j]
    {
      assert run[i] == s.slots[lo + i] && run[j] == s.slots[lo + j];
    }
    BatchCompletionValid(run, s.engine);
    assert s.slots[lo..][count..] == s.slots[lo + count..];
    PendingSetNullRun(s.slots, lo, count, batch);
  }

  lemma ApplyKeepsValid(s: Scope, step: Step, lib: ErrorStrings)
    requires Valid(s) && Fits(|s.slots|, step)
    requires Apply(s, step, lib).Ok?
    ensures Valid(Apply(s, step, lib).value)
  {
    match step
    case DeclareNull =>
      PendingSetAppend(s.slots, NullRequest);
    case DeclareStarted(call, code) =>
      var (r, e') := Start(s.engine, call, lib, code).value;
      PendingSetAppend(s.slots, r);
    case DeclareCopy(from) =>
      PendingSetAppend(s.slots, NullRequest);
    case DeclareMoved(from) =>
      var r := s.slots[from];
      PendingSetUpdate(s.slots, from, NullRequest);
      var cleared := s.slots[from := NullRequest];
      PendingSetAppend(cleared, r);
      assert Apply(s, step, lib).value.slots == cleared + [r];
    case CopyAssignSlot(to, from, code) =>
      WaitKeepsValid(s, to, lib, code);
    case MoveAssignSlot(to, from, code) =>
      MoveSlotsKeepsValid(s, to, from, lib, code);
    case WaitOn(at, code) =>
      WaitKeepsValid(s, at, lib, code);
    case TestOn(at, code, flag) =>
      var r := s.slots[at];
      if r.Pending? && flag {
        CompleteSlotKeepsValid(s, at, Tested(r.id));
      } else {
        assert s.slots[at := r] == s.slots;
      }
    case WaitAllOf(lo, count, code) =>
      WaitAllKeepsValid(s, lo, count, lib, code);
    case Leave(code) =>
      var last := s.slots[|s.slots| - 1];
      assert last.Pending? ==> last.id in PendingSet(s.slots);
      PendingSetDropLast(s.slots);
  }

  /** Complete at most once, for a whole block: from a state that keeps the
      invariant, any sequence of statements reaches a state that keeps it,
      whether it runs to the end or stops at an exception. In particular no
      operation appears twice in the library's completion order, and every
      active operation is still held by some request. */
  lemma {:induction false} ExecuteKeepsValid(s: Scope, steps: seq<Step>, lib: ErrorStrings)
    requires Valid(s) && WellFormed(|s.slots|, steps)
    ensures Valid(Execute(s, steps, lib).scope)
    decreases |steps|
  {
    if steps != [] {
      var r := Apply(s, steps[0], lib);
      if r.Ok? {
        ApplyKeepsValid(s, steps[0], lib);
        ExecuteKeepsValid(r.value, steps[1..], lib);
      }
    }
  }

  // ---------------------------------------------------------------------------
  // Leaving the block.

  /** The operations leaving the block completes, innermost declaration first. */
  function CompletionOrder(slots: seq<Request>): seq<nat>
    decreases |slots|
  {
    if slots == [] then []
    else HeldIds(slots[|slots| - 1]) + CompletionOrder(slots[..|slots| - 1])
  }

  /** The operation a request holds, as a list. */
  function HeldIds(r: Request): seq<nat>
  {
    if r.Pending? then [r.id] else []
  }

  /** The end of the block: every request is destroyed, innermost first, each
      destructor waiting with its own status code. A failing wait ends the
      program. On success every operation the block held has completed exactly
      once and nothing is left active. */
  method LeaveBlock(s: Scope, lib: ErrorStrings, codes: seq<int>) returns (r: Result<Engine>)
    requires Valid(s) && |codes| == |s.slots|
    ensures r.Ok? <==> forall i :: 0 <= i < |s.slots| && s.slots[i].Pending? ==> codes[i] == SUCCESS
    ensures r.Ok? ==> r.value.Valid() && r.value.active == {}
    ensures r.Ok? ==> r.value.completed == s.engine.completed + CompletionOrder(s.slots)
    ensures r.Ok? ==> forall id :: id in s.engine.active ==> id in r.value.completed
  {
    var n := |s.slots|;
    var e := s.engine;
    assert s.slots[..n] == s.slots;
    while n > 0
      invariant 0 <= n <= |s.slots|
      invariant Valid(Scope(s.slots[..n], e))
      invariant e.completed + CompletionOrder(s.slots[..n]) == s.engine.completed + CompletionOrder(s.slots)
      invariant forall i :: n <= i < |s.slots| && s.slots[i].Pending? ==> codes[i] == SUCCESS
      decreases n
    {
      var destroyed := Destroy(s.slots[n - 1], e, lib, codes[n - 1]);
      if destroyed.Err? {
        assert s.slots[n - 1].Pending? && codes[n - 1] != SUCCESS;
        return Err(destroyed.failure);
      }
      LeaveLastValid(s.slots[..n], e, lib, codes[n - 1]);
      LeaveLastOrder(s.slots[..n], e, destroyed.value.completed);
      assert s.slots[..n][..n - 1] == s.slots[..n - 1];
      e := destroyed.value;
      n := n - 1;
    }
    assert s.slots[..0] == [];
    AllHeldCompleted(s, e.completed);
    return Ok(e);
  }

  lemma LeaveLastValid(slots: seq<Request>, e: Engine, lib: ErrorStrings, code: int)
    requires |slots| > 0 && Valid(Scope(slots, e))
    requires Destroy(slots[|slots| - 1], e, lib, code).Ok?
    ensures Valid(Scope(slots[..|slots| - 1], Destroy(slots[|slots| - 1], e, lib, code).value))
  {
    ApplyKeepsValid(Scope(slots, e), Leave(code), lib);
  }

  lemma LeaveLastOrder(slots: seq<Request>, e: Engine, completed: seq<nat>)
    requires |slots| > 0
    requires completed == e.completed + HeldIds(slots[|slots| - 1])
    ensures completed + CompletionOrder(slots[..|slots| - 1]) == e.completed + CompletionOrder(slots)
  {
  }

  /** Every operation active at the start of the block is in its completion
      order. */
  lemma AllHeldCompleted(s: Scope, completed: seq<nat>)
    requires Valid(s)
    requires completed == s.engine.completed + CompletionOrder(s.slots)
    ensures forall id :: id in s.engine.active ==> id in completed
  {
    forall id | id in s.engine.active
      ensures id in completed
    {
      var i :| 0 <= i < |s.slots| && s.slots[i].Pending? && s.slots[i].id == id;
      CompletionOrderHolds(s.slots, i);
    }
  }

  /** Every pending slot's operation appears in the completion order. */
  lemma {:induction false} CompletionOrderHolds(slots: seq<Request>, i: nat)
    requires i < |slots| && slots[i].Pending?
    ensures slots[i].id in CompletionOrder(slots)
    decreases |slots|
  {
    var n := |slots|;
    if i < n - 1 {
      CompletionOrderHolds(slots[..n - 1], i);
    }
  }

  // ---------------------------------------------------------------------------
  // The slot-level statements against the two-object definitions.

  /** For two distinct slots, the slot-level move assignment is the two-object
      `MoveAssign`. */
  lemma MoveSlotsIsMoveAssign(slots: seq<Request>, to: nat, from: nat, e: Engine, lib: ErrorStrings, code: int)
    requires to < |slots| && from < |slots| && to != from
    ensures var a := MoveSlots(slots, to, from, e, lib, code);
      var b := Requests.MoveAssign(slots[to], slots[from], e, lib, code);
      && (a.Ok? <==> b.Ok?)
      && (a.Ok? ==> a.value.0 == slots[to := b.value.0.target][from := b.value.0.source]
                    && a.value.1 == b.value.1)
  {
  }

  /** Self move assignment (`r = std::move(r)`) completes the request's own
      operation and leaves it null. */
  lemma SelfMove(slots: seq<Request>, k: nat, e: Engine, lib: ErrorStrings, code: int)
    requires k < |slots|
    requires MoveSlots(slots, k, k, e, lib, code).Ok?
    ensures var (slots', e') := MoveSlots(slots, k, k, e, lib, code).value;
      && slots' == slots[k := NullRequest]
      && e' == Wait(slots[k], e, lib, code).value.1
  {
  }

  /** Why copying must refuse a pending request: two slots holding the same
      operation break the invariant, and leaving the block would wait for it
      twice. */
  lemma CopyOfPendingBreaksValid(slots: seq<Request>, e: Engine, from: nat)
    requires from < |slots| && slots[from].Pending?
    ensures !Valid(Scope(slots + [slots[from]], e))
    ensures CompletionOrder(slots + [slots[from]])[0] == slots[from].id
    ensures slots[from].id in CompletionOrder(slots)
  {
    var ext := slots + [slots[from]];
    assert ext[from] == ext[|slots|];
    assert ext[..|ext| - 1] == slots;
    CompletionOrderHolds(slots, from);
  }
}
