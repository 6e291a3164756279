/** The `environment` guard: an object whose constructor initializes the MPI
    runtime and whose destructor finalizes it, each only if the runtime reports
    that it has not been done yet.

    The runtime is modelled by its two flags (what MPI_Initialized and
    MPI_Finalized report) and by how many times guards called MPI_Init and
    MPI_Finalize. MPI_Init may be called at most once per process and not after
    MPI_Finalize, and MPI_Finalize at most once, after MPI_Init (section 8.7 of
    the MPI-3.1 standard); MPI_Initialized keeps reporting true after
    finalization. These rules are the preconditions of the native calls below,
    so every guard call site is checked against them.
 */
module Environment {
  import opened Errors

  /** The runtime of one process. */
  datatype Runtime = Runtime(initialized: bool, finalized: bool, inits: nat, finalizes: nat) {

    /** The runtime's flags agree with the calls the guards made: each native
        call was made at most once, and only ever moved its flag forward. */
    predicate Valid() {
      && (finalized ==> initialized)
      && inits <= 1 && finalizes <= 1
      && (inits == 1 ==> initialized)
      && (finalizes == 1 ==> finalized)
    }
  }

  /** A process before anything called MPI_Init. */
  const Fresh: Runtime := Runtime(false, false, 0, 0)

  /** MPI_Init with status `code`; `argc` and `argv` are passed through and not
      interpreted. */
  function NativeInit(rt: Runtime, lib: ErrorStrings, code: int): (r: Result<Runtime>)
    requires !rt.initialized
    ensures r.Ok? <==> code == SUCCESS
    ensures r.Ok? ==> r.value == rt.(initialized := true, inits := rt.inits + 1)
  {
    var o := HandleError(lib, code);
    if o.Fail? then Err(o.failure) else Ok(rt.(initialized := true, inits := rt.inits + 1))
  }

  /** MPI_Finalize with status `code`. */
  function NativeFinalize(rt: Runtime, lib: ErrorStrings, code: int): (r: Result<Runtime>)
    requires rt.initialized && !rt.finalized
    ensures r.Ok? <==> code == SUCCESS
    ensures r.Ok? ==> r.value == rt.(finalized := true, finalizes := rt.finalizes + 1)
  {
    var o := HandleError(lib, code);
    if o.Fail? then Err(o.failure) else Ok(rt.(finalized := true, finalizes := rt.finalizes + 1))
  }

  /** The status codes of the two native calls a guard makes: the query
      (MPI_Initialized or MPI_Finalized) and the action (MPI_Init or
      MPI_Finalize), if it is made. */
  datatype GuardCodes = GuardCodes(query: int, action: int)

  /** The constructor (and the default constructor, which passes null `argc`
      and `argv`): init iff the runtime reports not initialized. A failing
      query or init propagates, and no guard exists then. */
  function Construct(rt: Runtime, lib: ErrorStrings, codes: GuardCodes): (r: Result<Runtime>)
    ensures r.Ok? <==> codes.query == SUCCESS && (rt.initialized || codes.action == SUCCESS)
    ensures r.Ok? ==> r.value.initialized
    ensures r.Ok? ==> r.value.inits == rt.inits + (if rt.initialized then 0 else 1)
    ensures r.Ok? ==> r.value.finalized == rt.finalized && r.value.finalizes == rt.finalizes
    ensures r.Ok? && rt.Valid() ==> r.value.Valid()
  {
    var o := HandleError(lib, codes.query);
    if o.Fail? then Err(o.failure)
    else if rt.initialized then Ok(rt)
    else NativeInit(rt, lib, codes.action)
  }

  /** The destructor: finalize iff the runtime reports not finalized. A guard
      is destroyed only after its constructor completed, so the runtime is
      initialized by then. A failing query or finalize is an exception leaving
      a destructor, which ends the program. */
  function Destruct(rt: Runtime, lib: ErrorStrings, codes: GuardCodes): (r: Result<Runtime>)
    requires rt.initialized
    ensures r.Ok? <==> codes.query == SUCCESS && (rt.finalized || codes.action == SUCCESS)
    ensures r.Ok? ==> r.value.finalized && r.value.initialized
    ensures r.Ok? ==> r.value.finalizes == rt.finalizes + (if rt.finalized then 0 else 1)
    ensures r.Ok? ==> r.value.inits == rt.inits
    ensures r.Ok? && rt.Valid() ==> r.value.Valid()
  {
    var o := HandleError(lib, codes.query);
    if o.Fail? then Err(o.failure)
    else if rt.finalized then Ok(rt)
    else NativeFinalize(rt, lib, codes.action)
  }

  // ---------------------------------------------------------------------------
  // Several guards in one process.

  /** A guard object comes into being, or the innermost live one goes out of
      scope. */
  datatype GuardStep = Enter(codes: GuardCodes) | Exit(codes: GuardCodes)

  /** The live guards and the runtime. */
  datatype Guards = Guards(alive: nat, runtime: Runtime)

  /** The guards' invariant: the runtime is coherent, and initialized while a
      guard is alive. */
  predicate GuardsValid(g: Guards)
  {
    g.runtime.Valid() && (g.alive > 0 ==> g.runtime.initialized)
  }

  /** Guard statements that never leave a guard that is not alive. */
  predicate Nested(alive: nat, steps: seq<GuardStep>)
    decreases |steps|
  {
    steps == [] ||
    (match steps[0]
     case Enter(_) => Nested(alive + 1, steps[1..])
     case Exit(_) => alive > 0 && Nested(alive - 1, steps[1..]))
  }

  /** One guard statement. */
  function StepGuards(g: Guards, step: GuardStep, lib: ErrorStrings): (r: Result<Guards>)
    requires GuardsValid(g) && (step.Exit? ==> g.alive > 0)
    ensures r.Ok? ==> GuardsValid(r.value)
    ensures r.Ok? ==> r.value.alive == if step.Enter? then g.alive + 1 else g.alive - 1
  {
    match step
    case Enter(codes) =>
      var rt :- Construct(g.runtime, lib, codes);
      Ok(Guards(g.alive + 1, rt))
    case Exit(codes) =>
      var rt :- Destruct(g.runtime, lib, codes);
      Ok(Guards(g.alive - 1, rt))
  }

  /** Running guard statements until one throws: where the run stops, and the
      exception if one was thrown. Whatever the nesting and whatever the
      runtime answers, MPI_Init and MPI_Finalize are each called at most once,
      never in the wrong order, and never when the runtime rules forbid it. */
  function RunGuards(g: Guards, steps: seq<GuardStep>, lib: ErrorStrings): (r: (Guards, Outcome))
    requires GuardsValid(g) && Nested(g.alive, steps)
    ensures GuardsValid(r.0)
    ensures r.0.runtime.inits <= 1 && r.0.runtime.finalizes <= 1
    ensures r.0.runtime.inits >= g.runtime.inits && r.0.runtime.finalizes >= g.runtime.finalizes
    decreases |steps|
  {
    if steps == [] then (g, Pass)
    else match StepGuards(g, steps[0], lib)
      case Err(f) => (g, Fail(f))
      case Ok(g') => RunGuards(g', steps[1..], lib)
  }

  /** Two guards, nested or one after the other: in a fresh process the first
      constructor initializes and the first destructor to run finalizes; the
      other guard's calls find the work done and make only their queries. */
  lemma TwoGuards(lib: ErrorStrings, c: GuardCodes)
    requires c.query == SUCCESS && c.action == SUCCESS
    ensures Nested(0, [Enter(c), Enter(c), Exit(c), Exit(c)]) && Nested(0, [Enter(c), Exit(c), Enter(c), Exit(c)])
    ensures RunGuards(Guards(0, Fresh), [Enter(c), Enter(c), Exit(c), Exit(c)], lib)
      == (Guards(0, Runtime(true, true, 1, 1)), Pass)
    ensures RunGuards(Guards(0, Fresh), [Enter(c), Exit(c), Enter(c), Exit(c)], lib)
      == (Guards(0, Runtime(true, true, 1, 1)), Pass)
  {
    var nested := [Enter(c), Enter(c), Exit(c), Exit(c)];
    assert nested[1..] == [Enter(c), Exit(c), Exit(c)];
    assert nested[1..][1..] == [Exit(c), Exit(c)];
    assert nested[1..][1..][1..] == [Exit(c)];
    assert [Exit(c)][1..] == [];
    assert Nested(1, [Exit(c)]);
    assert Nested(2, [Exit(c), Exit(c)]);
    assert Nested(1, [Enter(c), Exit(c), Exit(c)]);
    var serial := [Enter(c), Exit(c), Enter(c), Exit(c)];
    assert serial[1..] == [Exit(c), Enter(c), Exit(c)];
    assert serial[1..][1..] == [Enter(c), Exit(c)];
    assert serial[1..][1..][1..] == [Exit(c)];
    assert Nested(0, [Enter(c), Exit(c)]);
    assert Nested(1, [Exit(c), Enter(c), Exit(c)]);
    var g1 := Guards(1, Runtime(true, false, 1, 0));
    var g2 := Guards(2, Runtime(true, false, 1, 0));
    var g3 := Guards(1, Runtime(true, true, 1, 1));
    var g4 := Guards(0, Runtime(true, true, 1, 1));
    assert StepGuards(Guards(0, Fresh), Enter(c), lib) == Ok(g1);
    assert StepGuards(g1, Enter(c), lib) == Ok(g2);
    assert StepGuards(g2, Exit(c), lib) == Ok(g3);
    assert StepGuards(g3, Exit(c), lib) == Ok(g4);
    assert StepGuards(g1, Exit(c), lib) == Ok(g4);
    assert StepGuards(g4, Enter(c), lib) == Ok(g3);
    assert RunGuards(g3, [Exit(c)], lib) == RunGuards(g4, [], lib);
    assert RunGuards(g2, [Exit(c), Exit(c)], lib) == RunGuards(g3, [Exit(c)], lib);
    assert RunGuards(g1, nested[1..], lib) == RunGuards(g2, [Exit(c), Exit(c)], lib);
    assert RunGuards(Guards(0, Fresh), nested, lib) == RunGuards(g1, nested[1..], lib);
    assert RunGuards(g4, [Enter(c), Exit(c)], lib) == RunGuards(g3, [Exit(c)], lib);
    assert RunGuards(g1, serial[1..], lib) == RunGuards(g4, [Enter(c), Exit(c)], lib);
    assert RunGuards(Guards(0, Fresh), serial, lib) == RunGuards(g1, serial[1..], lib);
  }

  /** A guard made after the runtime was finalized never calls MPI_Init again:
      the runtime still reports initialized, so the constructor only queries,
      and the destructor finds it finalized. */
  lemma NoInitAfterFinalize(rt: Runtime, lib: ErrorStrings, enter: GuardCodes, exit: GuardCodes)
    requires rt.Valid() && rt.finalized
    requires enter.query == SUCCESS && exit.query == SUCCESS
    ensures Construct(rt, lib, enter) == Ok(rt)
    ensures Destruct(rt, lib, exit) == Ok(rt)
  {
  }
}
