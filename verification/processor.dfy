/** `DefaultProcessor`: an ordered registry of modules, the dispatch of a named
    action to every module that claims it, and the best-effort start/stop of the
    modules that have a lifecycle. */
module Processors {
  import opened Wrappers
  import opened ProcessorExceptions

  /** A registered module: its identity and whether it is an
      `IProcessorActiveModule` (has `start`/`stop`). */
  datatype Module = Module(id: nat, active: bool)

  datatype Processor = Processor(ref: ProcessorRef, modules: seq<Module>)

  /** What every module of one `handle` call is given: the message and the options
      map. Both are shared mutable objects in the source, so a module's `handle` may
      change either, and every later module sees the change. */
  datatype Exchange<M, O> = Exchange(msg: M, options: O)

  /** What `module.handle` did: the state as the module left it, and the
      `OpenAS2Exception` it threw, if any. */
  datatype Step<S> = Step(after: S, failure: Option<Cause>)

  /** The modules' behaviour, which this model does not see: `canHandle` and `handle`
      of each module, for an action and the state `S` the module is given. */
  datatype Modules<!S> = Modules(
    canHandle: (Module, string, S) -> bool,
    handle: (Module, string, S) -> Step<S>)

  /** `addModule`: a null module is rejected (`ValueEnforcer.notNull`). */
  datatype RegistryError = NullModule

  function AddModule(p: Processor, m: Option<Module>): (r: Result<Processor, RegistryError>)
    ensures r.Failure? <==> m.None?
    ensures r.Success? ==> r.value.ref == p.ref
    ensures r.Success? ==> |r.value.modules| == |p.modules| + 1
    ensures r.Success? ==> r.value.modules[..|p.modules|] == p.modules && r.value.modules[|p.modules|] == m.value
  {
    match m
    case None => Failure(NullModule)
    case Some(added) => Success(p.(modules := p.modules + [added]))
  }

  /** `getAllActiveModules`: the registered modules with the active capability, in
      registration order. */
  function ActiveModules(mods: seq<Module>): (r: seq<Module>)
    ensures |r| <= |mods|
    ensures forall m :: m in r <==> m in mods && m.active
  {
    if mods == [] then []
    else (if mods[0].active then [mods[0]] else []) + ActiveModules(mods[1..])
  }

  /** Filtering distributes over concatenation: this is what keeps the registration
      order in the active list. */
  lemma {:induction false} ActiveModulesAppend(a: seq<Module>, b: seq<Module>)
    ensures ActiveModules(a + b) == ActiveModules(a) + ActiveModules(b)
  {
    if a == [] {
      assert a + b == b;
    } else {
      assert (a + b)[1..] == a[1..] + b;
      ActiveModulesAppend(a[1..], b);
    }
  }

  /** Registering a module extends the active list by that module exactly when it is
      active, and never reorders or drops the earlier ones. */
  lemma AddModuleActive(p: Processor, m: Module)
    ensures AddModule(p, Some(m)).Success?
    ensures ActiveModules(AddModule(p, Some(m)).value.modules)
            == ActiveModules(p.modules) + (if m.active then [m] else [])
  {
    ActiveModulesAppend(p.modules, [m]);
    assert [m][1..] == [];
  }

  /** One module's turn in a dispatch pass: did it claim the action, and did its
      `handle` throw. */
  datatype Visit = Visit(handler: Module, claimed: bool, failure: Option<Cause>)

  /** A dispatch pass: the state before each module's turn and after the last
      (`trail`), and one visit per registered module. */
  datatype Pass<S> = Pass(trail: seq<S>, visits: seq<Visit>)

  /** The loop of `handle`: every module in order is asked `canHandle` on the state
      as the earlier modules left it; a claiming module is handled and its failure,
      if any, recorded; the loop always goes on to the next module. */
  function Walk<S>(env: Modules<S>, action: string, mods: seq<Module>, state: S): (p: Pass<S>)
    ensures |p.trail| == |mods| + 1 && p.trail[0] == state
    ensures |p.visits| == |mods|
    ensures forall i :: 0 <= i < |mods| ==> p.visits[i].handler == mods[i]
    ensures forall i :: 0 <= i < |mods| && !p.visits[i].claimed ==> p.visits[i].failure.None?
    decreases |mods|
  {
    if mods == [] then Pass([state], [])
    else
      var m := mods[0];
      if env.canHandle(m, action, state) then
        var step := env.handle(m, action, state);
        var rest := Walk(env, action, mods[1..], step.after);
        Pass([state] + rest.trail, [Visit(m, true, step.failure)] + rest.visits)
      else
        var rest := Walk(env, action, mods[1..], state);
        Pass([state] + rest.trail, [Visit(m, false, None)] + rest.visits)
  }

  /** One position of a pass: module `m` is visited with state `before`; it is
      handled, exactly once, iff it claims the action then, and `after` and the
      recorded failure are what its `handle` produced; a module that does not claim
      the action is not handled and leaves the state alone. */
  ghost predicate IsVisit<S>(env: Modules<S>, action: string, m: Module, before: S, v: Visit, after: S) {
    && v.handler == m
    && v.claimed == env.canHandle(m, action, before)
    && (v.claimed ==> env.handle(m, action, before) == Step(after, v.failure))
    && (!v.claimed ==> after == before && v.failure.None?)
  }

  /** Reference definition of a dispatch pass, position by position. */
  ghost predicate IsPass<S>(env: Modules<S>, action: string, mods: seq<Module>, p: Pass<S>) {
    && |p.trail| == |mods| + 1
    && |p.visits| == |mods|
    && forall i :: 0 <= i < |mods| ==> IsVisit(env, action, mods[i], p.trail[i], p.visits[i], p.trail[i + 1])
  }

  /** A pass splits into its first visit and the pass of the remaining modules. */
  lemma PassSplit<S>(env: Modules<S>, action: string, mods: seq<Module>, p: Pass<S>)
    requires |mods| > 0 && |p.trail| == |mods| + 1 && |p.visits| == |mods|
    ensures IsPass(env, action, mods, p)
            <==> IsVisit(env, action, mods[0], p.trail[0], p.visits[0], p.trail[1])
                 && IsPass(env, action, mods[1..], Pass(p.trail[1..], p.visits[1..]))
  {
  }

  /** `Walk` is a pass in the sense of `IsPass`. */
  lemma {:induction false} WalkIsAPass<S>(env: Modules<S>, action: string, mods: seq<Module>, state: S)
    ensures IsPass(env, action, mods, Walk(env, action, mods, state))
    decreases |mods|
  {
    if mods != [] {
      var w := Walk(env, action, mods, state);
      var m := mods[0];
      var next := if env.canHandle(m, action, state) then env.handle(m, action, state).after else state;
      WalkIsAPass(env, action, mods[1..], next);
      assert Pass(w.trail[1..], w.visits[1..]) == Walk(env, action, mods[1..], next);
      PassSplit(env, action, mods, w);
    }
  }

  /** A pass is determined by its starting state: every pass from `state` is `Walk`'s. */
  lemma {:induction false} PassIsUnique<S>(env: Modules<S>, action: string, mods: seq<Module>, state: S, other: Pass<S>)
    requires IsPass(env, action, mods, other) && other.trail[0] == state
    ensures other == Walk(env, action, mods, state)
    decreases |mods|
  {
    if mods == [] {
      assert other.trail == [state];
    } else {
      PassSplit(env, action, mods, other);
      var rest := Pass(other.trail[1..], other.visits[1..]);
      PassIsUnique(env, action, mods[1..], other.trail[1], rest);
      assert other.trail == [state] + rest.trail;
      assert other.visits == [other.visits[0]] + rest.visits;
    }
  }

  /** The failures collected during a pass. */
  function Causes(visits: seq<Visit>): (r: seq<Cause>)
    ensures |r| <= |visits|
    ensures forall c :: c in r <==> exists i :: 0 <= i < |visits| && visits[i].failure == Some(c)
  {
    if visits == [] then []
    else
      var rest := Causes(visits[1..]);
      assert forall i :: 0 < i < |visits| ==> visits[i] == visits[1..][i - 1];
      assert forall i :: 0 <= i < |visits| - 1 ==> visits[1..][i] == visits[i + 1];
      match visits[0].failure
      case Some(c) => [c] + rest
      case None => rest
  }

  /** Collecting distributes over concatenation: the causes of earlier modules come
      before those of later ones, each failure once. */
  lemma {:induction false} CausesAppend(a: seq<Visit>, b: seq<Visit>)
    ensures Causes(a + b) == Causes(a) + Causes(b)
  {
    if a == [] {
      assert a + b == b;
    } else {
      assert (a + b)[1..] == a[1..] + b;
      CausesAppend(a[1..], b);
    }
  }

  /** Whether some module claimed the action (`bModuleFound`). */
  predicate Claimed(visits: seq<Visit>) {
    exists i :: 0 <= i < |visits| && visits[i].claimed
  }

  /** Only a handled module can fail, so a collected cause means some module claimed
      the action; with no claimant the cause list is necessarily empty. */
  lemma CausesNeedAClaimant(visits: seq<Visit>)
    requires forall i :: 0 <= i < |visits| && !visits[i].claimed ==> visits[i].failure.None?
    ensures Causes(visits) != [] ==> Claimed(visits)
  {
  }

  /** The outcome of `handle`, with the message and options as the modules left them. */
  datatype HandleResult<M, O> =
    | Handled(final: Exchange<M, O>)
    | Failed(final: Exchange<M, O>, error: ProcessorException)
    | NoModule(final: Exchange<M, O>, action: string)

  /** `handle (action, msg, options)`. After the full pass: any collected cause makes
      it throw a `ProcessorException` with all of them, in order, even when other
      modules succeeded; otherwise, when no module claimed the action, it throws
      `NoModuleException` with the action, message and options; otherwise it returns
      normally. */
  function Handle<M, O>(p: Processor, env: Modules<Exchange<M, O>>, action: string, msg: M, options: O): (r: HandleResult<M, O>)
    ensures var pass := Walk(env, action, p.modules, Exchange(msg, options));
            && r.final == pass.trail[|p.modules|]
            && (r.Failed? <==> Causes(pass.visits) != [])
            && (r.Failed? ==> r.error.causes == Causes(pass.visits) && r.error.processor == p.ref)
            && (r.NoModule? <==> !Claimed(pass.visits))
            && (r.NoModule? ==> r.action == action)
            && (r.Handled? <==> Claimed(pass.visits) && Causes(pass.visits) == [])
  {
    var pass := Walk(env, action, p.modules, Exchange(msg, options));
    var causes := Causes(pass.visits);
    var last := pass.trail[|p.modules|];
    CausesNeedAClaimant(pass.visits);
    if causes != [] then
      match NewProcessorException(Some(p.ref), Some(causes))
      case Success(e) => Failed(last, e)
      case Failure(_) => assert false; NoModule(last, action)
    else if !Claimed(pass.visits) then
      NoModule(last, action)
    else
      Handled(last)
  }

  /** No module claims the action: `handle` reports the no-module condition, never an
      aggregate failure. */
  lemma NoClaimantMeansNoModule<M, O>(p: Processor, env: Modules<Exchange<M, O>>, action: string, msg: M, options: O)
    requires forall m, x :: m in p.modules ==> !env.canHandle(m, action, x)
    ensures Handle(p, env, action, msg, options).NoModule?
  {
    var pass := Walk(env, action, p.modules, Exchange(msg, options));
    WalkIsAPass(env, action, p.modules, Exchange(msg, options));
    forall i | 0 <= i < |pass.visits|
      ensures !pass.visits[i].claimed
    {
      assert p.modules[i] in p.modules;
      assert IsVisit(env, action, p.modules[i], pass.trail[i], pass.visits[i], pass.trail[i + 1]);
    }
    CausesNeedAClaimant(pass.visits);
  }

  /** Three modules, only the second claims the action and its `handle` throws: the
      aggregate failure carries exactly that one cause, and that module is the only
      one handled, once. */
  lemma SecondOfThreeFails<M, O>(env: Modules<Exchange<M, O>>, action: string, msg: M, options: O, c: Cause)
    requires var m1, m2, m3 := Module(1, false), Module(2, false), Module(3, false);
             && (forall x :: !env.canHandle(m1, action, x) && !env.canHandle(m3, action, x))
             && (forall x :: env.canHandle(m2, action, x))
             && env.handle(m2, action, Exchange(msg, options)).failure == Some(c)
    ensures var p := Processor(ProcessorRef(0), [Module(1, false), Module(2, false), Module(3, false)]);
            var pass := Walk(env, action, p.modules, Exchange(msg, options));
            && Handle(p, env, action, msg, options).Failed?
            && Handle(p, env, action, msg, options).error.causes == [c]
            && (forall i :: 0 <= i < 3 ==> (pass.visits[i].claimed <==> i == 1))
  {
    var start := Exchange(msg, options);
    var mods := [Module(1, false), Module(2, false), Module(3, false)];
    var pass := Walk(env, action, mods, start);
    assert mods[1..] == [Module(2, false), Module(3, false)];
    assert mods[1..][1..] == [Module(3, false)];
    assert mods[1..][1..][1..] == [];
    var step := env.handle(Module(2, false), action, start);
    var w3 := Walk(env, action, [Module(3, false)], step.after);
    assert w3.visits == [Visit(Module(3, false), false, None)];
    var w2 := Walk(env, action, [Module(2, false), Module(3, false)], start);
    assert w2.visits == [Visit(Module(2, false), true, Some(c))] + w3.visits;
    assert pass.visits == [Visit(Module(1, false), false, None)] + w2.visits;
    assert pass.visits[1..] == w2.visits && w2.visits[1..] == w3.visits && w3.visits[1..] == [];
    assert Causes(w3.visits) == [];
    assert Causes(w2.visits) == [c];
    assert Causes(pass.visits) == [c];
  }

  /** The module failures of a lifecycle pass (`start` or `stop`), in order. */
  function LifecycleFailures(mods: seq<Module>, op: Module -> Option<Cause>): seq<Cause> {
    if mods == [] then []
    else (if op(mods[0]).Some? then [op(mods[0]).value] else []) + LifecycleFailures(mods[1..], op)
  }

  lemma {:induction false} LifecycleFailuresAppend(a: seq<Module>, m: Module, op: Module -> Option<Cause>)
    ensures LifecycleFailures(a + [m], op)
            == LifecycleFailures(a, op) + (if op(m).Some? then [op(m).value] else [])
  {
    if a == [] {
      assert a + [m] == [m];
      assert [m][1..] == [];
    } else {
      assert (a + [m])[1..] == a[1..] + [m];
      LifecycleFailuresAppend(a[1..], m, op);
    }
  }

  /** No failure is lost: the failure of any module of the pass is handed to
      `terminate ()`. */
  lemma {:induction false} EveryFailureTerminated(mods: seq<Module>, op: Module -> Option<Cause>, i: nat)
    requires i < |mods| && op(mods[i]).Some?
    ensures op(mods[i]).value in LifecycleFailures(mods, op)
  {
    if i > 0 {
      assert mods[1..][i - 1] == mods[i];
      EveryFailureTerminated(mods[1..], op, i - 1);
    }
  }

  /** The loop shared by `startActiveModules` and `stopActiveModules`: `op` is run on
      every active module in order; a failure is handed to `terminate ()` (collected
      here in `terminated`) and the loop goes on. */
  method RunLifecycle(p: Processor, op: Module -> Option<Cause>) returns (visited: seq<Module>, terminated: seq<Cause>)
    ensures visited == ActiveModules(p.modules)
    ensures terminated == LifecycleFailures(visited, op)
    ensures |terminated| <= |visited|
  {
    var active := ActiveModules(p.modules);
    visited, terminated := [], [];
    var i := 0;
    while i < |active|
      invariant 0 <= i <= |active|
      invariant visited == active[..i]
      invariant terminated == LifecycleFailures(visited, op)
      invariant |terminated| <= |visited|
    {
      var m := active[i];
      LifecycleFailuresAppend(visited, m, op);
      var outcome := op(m);
      if outcome.Some? {
        terminated := terminated + [outcome.value];
      }
      visited := visited + [m];
      i := i + 1;
    }
    assert active[..i] == active;
  }

  /** `startActiveModules`: every active module is started, in order, whatever the
      earlier ones did; each failure goes to `terminate ()`. */
  method StartActiveModules(p: Processor, start: Module -> Option<Cause>) returns (started: seq<Module>, terminated: seq<Cause>)
    ensures started == ActiveModules(p.modules)
    ensures forall m :: m in started <==> m in p.modules && m.active
    ensures terminated == LifecycleFailures(started, start)
  {
    started, terminated := RunLifecycle(p, start);
  }

  /** `stopActiveModules`: every active module is stopped, in order, whatever the
      earlier ones did; each failure goes to `terminate ()`. */
  method StopActiveModules(p: Processor, stop: Module -> Option<Cause>) returns (stopped: seq<Module>, terminated: seq<Cause>)
    ensures stopped == ActiveModules(p.modules)
    ensures forall m :: m in stopped <==> m in p.modules && m.active
    ensures terminated == LifecycleFailures(stopped, stop)
  {
    stopped, terminated := RunLifecycle(p, stop);
  }
}
