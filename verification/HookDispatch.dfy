/** The shared hook dispatcher on one thread. The code saves and restores thread state by hand;
    it is proved to behave as if every dispatch ran in its own scope. */
module HookDispatch {

  type Method = nat

  /** What an entry point leads to: the original code, or a bridge into the dispatcher that saved
      the entry point it replaced. Null stands for a missing origin. */
  datatype Code = Null | Body | Bridge(id: nat, origin: Code)

  /** A registered hook: which callbacks it has, and whether its class and method id are known,
      so that the original is called through JNI. */
  datatype Hook = Hook(onEnter: bool, onLeave: bool, viaJni: bool)

  /** The three words of the thread's managed stack. */
  datatype Words = Words(quickFrame: nat, link: nat, shadowFrame: nat)

  const EMPTY: Words := Words(0, 0, 0)

  /** ScopedHookManagedStack: what it saved, and the guard that was current before it. */
  datatype Guard = NoGuard | Guard(saved: Words, active: bool, prev: Guard)

  // ----- What callbacks and method bodies do: an arbitrary well-nested run -----

  /** One invocation of a method: what its hook callbacks do and what its original body calls. */
  datatype Run = Run(enter: seq<Op>, body: seq<Call>, leave: seq<Op>)

  datatype Call = Call(target: Method, run: Run)

  datatype Op = CallOriginal | SetResult | ResetResult | Invoke(call: Call)

  /** What an observer sees: depth is the number of calls the event is nested in. */
  datatype Event =
    | Callback(m: Method, leaving: bool, depth: nat, seen: Words)
    | Original(m: Method, depth: nat, seen: Words)

  // ----- Scoped semantics -----

  /** The surroundings of an invocation. They are passed inwards and never come back changed. */
  datatype Env = Env(
    hooks: map<Method, Hook>, attached: bool, known: bool,
    words: Words, guard: Guard, active: set<Method>, entries: map<Method, Code>, depth: nat)
  {
    /** The scope of a dispatch of m. */
    function Enter(m: Method): Env {
      this.(guard := Guard(if known then words else EMPTY, known, guard),
            words := if known then EMPTY else words,
            active := active + {m})
    }

    /** The scope in which the original runs: through JNI its entry point is put back first. */
    function WithOrigin(m: Method, origin: Code): Env {
      if m in hooks && hooks[m].viaJni then this.(entries := entries[m := origin]) else this
    }

    function EntryOf(m: Method): Code {
      if m in entries then entries[m] else Body
    }

    function Deeper(): Env { this.(depth := depth + 1) }
  }

  /** The frame flags has_custom_result and original_invoked. */
  datatype Frame = Frame(custom: bool, invoked: bool)

  datatype Outcome = Outcome(events: seq<Event>, frame: Frame)

  function TraceCode(env: Env, m: Method, code: Code, run: Run): seq<Event>
    decreases run, code, 3, 0
  {
    match code
    case Null => []
    case Body => [Original(m, env.depth, env.words)] + TraceCalls(env.Deeper(), run, 0)
    case Bridge(_, origin) => TraceDispatch(env, m, origin, run)
  }

  function TraceCalls(env: Env, run: Run, i: nat): seq<Event>
    requires i <= |run.body|
    decreases run, Body, 0, |run.body| - i
  {
    if i == |run.body| then []
    else
      var call := run.body[i];
      TraceCode(env, call.target, env.EntryOf(call.target), call.run) + TraceCalls(env, run, i + 1)
  }

  function TraceDispatch(env: Env, m: Method, origin: Code, run: Run): seq<Event>
    decreases run, origin, 7, 0
  {
    if m in env.active then TraceCode(env, m, origin, run)
    else if m !in env.hooks || !env.attached then []
    else TraceFrame(env.Enter(m), env.hooks[m], m, origin, run)
  }

  /** onEnter, the original unless it has run or a result is set, onLeave. */
  function TraceFrame(env: Env, hook: Hook, m: Method, origin: Code, run: Run): seq<Event>
    decreases run, origin, 6, 0
  {
    var unused := Frame(false, false);
    var entered :=
      if hook.onEnter then TraceCallback(env, m, origin, run, false, unused) else Outcome([], unused);
    var middle :=
      if entered.frame.custom then Outcome([], entered.frame)
      else TraceOriginal(env, m, origin, run, entered.frame);
    var left :=
      if hook.onLeave then TraceCallback(env, m, origin, run, true, middle.frame)
      else Outcome([], middle.frame);
    entered.events + middle.events + left.events
  }

  function TraceCallback(env: Env, m: Method, origin: Code, run: Run, leaving: bool, frame: Frame): Outcome
    decreases run, origin, 5, 1
  {
    var r := TraceOps(env, m, origin, run, leaving, 0, frame);
    Outcome([Callback(m, leaving, env.depth, env.words)] + r.events, r.frame)
  }

  function Ops(run: Run, leaving: bool): seq<Op> {
    if leaving then run.leave else run.enter
  }

  function TraceOps(env: Env, m: Method, origin: Code, run: Run, leaving: bool, i: nat, frame: Frame): Outcome
    requires i <= |Ops(run, leaving)|
    decreases run, origin, 5, 0, |Ops(run, leaving)| - i
  {
    if i == |Ops(run, leaving)| then Outcome([], frame)
    else
      var step := TraceOp(env, m, origin, run, leaving, i, frame);
      var rest := TraceOps(env, m, origin, run, leaving, i + 1, step.frame);
      Outcome(step.events + rest.events, rest.frame)
  }

  function TraceOp(env: Env, m: Method, origin: Code, run: Run, leaving: bool, i: nat, frame: Frame): Outcome
    requires i < |Ops(run, leaving)|
    decreases run, origin, 4, 1
  {
    match Ops(run, leaving)[i]
    case CallOriginal => TraceOriginal(env, m, origin, run, frame)
    case SetResult => Outcome([], frame.(custom := true))
    case ResetResult => Outcome([], frame.(custom := false))
    case Invoke(call) =>
      var deeper := env.Deeper();
      Outcome(TraceCode(deeper, call.target, deeper.EntryOf(call.target), call.run), frame)
  }

  /** invokeOriginalInternal: at most once per frame, and only with an origin. */
  function TraceOriginal(env: Env, m: Method, origin: Code, run: Run, frame: Frame): Outcome
    decreases run, origin, 4, 0
  {
    if origin.Null? || frame.invoked then Outcome([], frame)
    else Outcome(TraceCode(env.WithOrigin(m, origin), m, origin, run), frame.(invoked := true))
  }

  // ----- The implementation: one thread and the state it saves and restores -----

  class HookThread {
    const hooks: map<Method, Hook>
    const attached: bool
    const known: bool
    var words: Words
    var guard: Guard
    var active: set<Method>
    var entries: map<Method, Code>
    ghost var depth: nat
    ghost var log: seq<Event>

    ghost function Scope(): Env
      reads this
    {
      Env(hooks, attached, known, words, guard, active, entries, depth)
    }

    constructor (hooks: map<Method, Hook>, attached: bool, known: bool, words: Words, entries: map<Method, Code>)
      ensures Scope() == Env(hooks, attached, known, words, NoGuard, {}, entries, 0)
      ensures log == []
    {
      this.hooks, this.attached, this.known := hooks, attached, known;
      this.words, this.guard, this.active, this.entries := words, NoGuard, {}, entries;
      this.depth, this.log := 0, [];
    }

    /** Jumps to an entry point of m. */
    method RunCode(m: Method, code: Code, run: Run)
      requires code.Bridge? ==> m in entries
      modifies this
      ensures Scope() == old(Scope())
      ensures log == old(log) + TraceCode(old(Scope()), m, code, run)
      decreases run, code, 3, 0
    {
      match code
      case Null =>
      case Body =>
        log := log + [Original(m, depth, words)];
        depth := depth + 1;
        RunCalls(run);
        depth := depth - 1;
      case Bridge(_, origin) => MethodHookDispatcher(m, origin, run);
    }

    /** The calls that an original body makes. */
    method RunCalls(run: Run)
      modifies this
      ensures Scope() == old(Scope())
      ensures log == old(log) + TraceCalls(old(Scope()), run, 0)
      decreases run, Body, 0, 0
    {
      hide TraceCode;
      ghost var env := Scope();
      for i := 0 to |run.body|
        invariant Scope() == env
        invariant log + TraceCalls(env, run, i) == old(log) + TraceCalls(env, run, 0)
      {
        var call := run.body[i];
        var code := if call.target in entries then entries[call.target] else Body;
        RunCode(call.target, code, call.run);
      }
    }

    method MethodHookDispatcher(target: Method, origin: Code, run: Run)
      requires target in entries
      modifies this
      ensures Scope() == old(Scope())
      ensures log == old(log) + TraceDispatch(old(Scope()), target, origin, run)
      decreases run, origin, 7, 0
    {
      hide TraceCode, TraceFrame;
      if target in active {
        if !origin.Null? {
          RunCode(target, origin, run);
        } else {
          NullTrace(Scope(), target, run);
        }
        return;
      }
      if target !in hooks { return; }
      var hook := hooks[target];
      if !attached { return; }

      // ScopedHookManagedStack
      var msguard := Guard(if known then words else EMPTY, known, guard);
      guard := msguard;
      if known { words := EMPTY; }
      active := active + {target};

      RunFrame(hook, target, origin, run);

      // The destructors run in reverse order.
      active := active - {target};
      assert active == old(active);
      guard := msguard.prev;
      if msguard.active { words := msguard.saved; }
    }

    /** The frame's three stages, with the guards in place. */
    method RunFrame(hook: Hook, target: Method, origin: Code, run: Run)
      requires target in entries
      modifies this
      ensures Scope() == old(Scope())
      ensures log == old(log) + TraceFrame(old(Scope()), hook, target, origin, run)
      decreases run, origin, 6, 0
    {
      hide TraceCallback, TraceOriginal;
      ghost var env := Scope();
      var frame := Frame(false, false);
      ghost var entered, left := Outcome([], frame), Outcome([], frame);
      if hook.onEnter {
        entered := TraceCallback(env, target, origin, run, false, frame);
        frame := RunCallback(target, origin, run, false, frame);
      }
      ghost var middle := Outcome([], frame);
      if origin.Null? || frame.invoked { NoOriginal(env, target, origin, run, frame); }
      if !frame.custom && !frame.invoked && !origin.Null? {
        middle := TraceOriginal(env, target, origin, run, frame);
        frame := InvokeOriginal(target, origin, run, frame);
      }
      left := Outcome([], frame);
      if hook.onLeave {
        left := TraceCallback(env, target, origin, run, true, frame);
        frame := RunCallback(target, origin, run, true, frame);
      }
      Assoc(old(log), entered.events, middle.events, left.events);
    }

    method RunCallback(target: Method, origin: Code, run: Run, leaving: bool, frame: Frame) returns (after: Frame)
      requires target in entries
      modifies this
      ensures Scope() == old(Scope())
      ensures var r := TraceCallback(old(Scope()), target, origin, run, leaving, frame);
        log == old(log) + r.events && after == r.frame
      decreases run, origin, 5, 1
    {
      hide TraceOp;
      ghost var env := Scope();
      log := log + [Callback(target, leaving, depth, words)];
      ghost var start := log;
      after := frame;
      for i := 0 to |Ops(run, leaving)|
        invariant Scope() == env
        invariant var rest := TraceOps(env, target, origin, run, leaving, i, after);
          var all := TraceOps(env, target, origin, run, leaving, 0, frame);
          log + rest.events == start + all.events && rest.frame == all.frame
      {
        after := RunOp(target, origin, run, leaving, i, after);
      }
      assert log + [] == log;
      assert start + TraceOps(env, target, origin, run, leaving, 0, frame).events
          == old(log) + TraceCallback(env, target, origin, run, leaving, frame).events;
    }

    method RunOp(target: Method, origin: Code, run: Run, leaving: bool, i: nat, frame: Frame) returns (after: Frame)
      requires target in entries && i < |Ops(run, leaving)|
      modifies this
      ensures Scope() == old(Scope())
      ensures var r := TraceOp(old(Scope()), target, origin, run, leaving, i, frame);
        log == old(log) + r.events && after == r.frame
      decreases run, origin, 4, 1
    {
      hide TraceCode, TraceOriginal;
      after := frame;
      match Ops(run, leaving)[i]
      case CallOriginal =>
        after := InvokeOriginal(target, origin, run, frame);
      case SetResult => after := after.(custom := true);
      case ResetResult => after := after.(custom := false);
      case Invoke(call) =>
        depth := depth + 1;
        var code := if call.target in entries then entries[call.target] else Body;
        RunCode(call.target, code, call.run);
        depth := depth - 1;
    }

    method InvokeOriginal(target: Method, origin: Code, run: Run, frame: Frame) returns (after: Frame)
      requires target in entries
      modifies this
      ensures Scope() == old(Scope())
      ensures var r := TraceOriginal(old(Scope()), target, origin, run, frame);
        log == old(log) + r.events && after == r.frame
      decreases run, origin, 4, 0
    {
      hide TraceCode;
      if origin.Null? || frame.invoked { return frame; }
      var curEntry := entries[target];
      if target in hooks && hooks[target].viaJni {
        entries := entries[target := origin];
        RunCode(target, entries[target], run);
        entries := entries[target := curEntry];
      } else {
        RunCode(target, origin, run);
      }
      return frame.(invoked := true);
    }
  }

  lemma Assoc(log: seq<Event>, a: seq<Event>, b: seq<Event>, c: seq<Event>)
    ensures log + a + b + c == log + (a + b + c)
    ensures log + [] == log
  {
  }

  lemma NoOriginal(env: Env, m: Method, origin: Code, run: Run, frame: Frame)
    requires origin.Null? || frame.invoked
    ensures TraceOriginal(env, m, origin, run, frame) == Outcome([], frame)
  {
  }

  lemma NullTrace(env: Env, m: Method, run: Run)
    ensures TraceCode(env, m, Null, run) == []
  {
  }
}
